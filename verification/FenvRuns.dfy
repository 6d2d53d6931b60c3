/** Whole runs of a program that mixes calls of `fenv.h` with floating-point
    arithmetic, and the single environment of section 7.6 of ISO/IEC 9899:1999 that
    the two hardware units are meant to look like. */
module FenvRuns {
  import opened Words
  import opened FenvModel

  // ---------------------------------------------------------------- runs

  /** One step of a program. `fenv_t` objects are named by the order in which
      `fegetenv` and `feholdexcept` stored them; number 0 is `FE_DFL_ENV`. The last two
      are the program's own arithmetic: an x87 operation, which waits for pending
      exceptions and may also fault its stack and change condition codes, tags and
      pointers, and an SSE one. */
  datatype Call =
    | Feclearexcept(excepts: Word32)
    | Fegetexceptflag(excepts: Word32)
    | Fesetexceptflag(flags: Word16, excepts: Word32)
    | Feraiseexcept(excepts: Word32)
    | Fetestexcept(excepts: Word32)
    | Fegetround
    | Fesetround(round: Word32)
    | Fegetenv
    | Feholdexcept
    | Fesetenv(slot: nat)
    | Feupdateenv(slot: nat)
    | Feenableexcept(mask: Word32)
    | Fedisableexcept(mask: Word32)
    | Fegetexcept
    | X87Op(raised: Word16, codes: Word16, tag: Word16, pointers: seq<Word16>)
    | SseOp(simd: Word32)

  /** Section 7.6.2 of the C standard: `excepts` is a union of the exception macros. */
  predicate ValidCall(c: Call) {
    match c
    case Feclearexcept(e) => e <= FE_ALL_EXCEPT
    case Fegetexceptflag(e) => e <= FE_ALL_EXCEPT
    case Fesetexceptflag(_, e) => e <= FE_ALL_EXCEPT
    case Feraiseexcept(e) => e <= FE_ALL_EXCEPT
    case Fetestexcept(e) => e <= FE_ALL_EXCEPT
    case _ => true
  }

  predicate ValidCalls(calls: seq<Call>) {
    forall c | c in calls :: ValidCall(c)
  }

  datatype Proc = Proc(cpu: Cpu, saved: seq<Env>)

  const CODES: Word16 := {8, 9, 10, 11, 12, 13, 14}

  /** The exception flags and the stack fault; a stack fault is an invalid operation. */
  function Raised(raised: Word16): Word16 {
    raised * (FE_ALL_EXCEPT + {6}) + (if 6 in raised then {0} else {})
  }

  function X87(s: Cpu, c: Call): (Cpu, Result)
    requires c.X87Op?
  {
    if Pending(s) then (s, Trap(MathFault))
    else
      var status := (s.status - CODES) + (c.codes * CODES) + Raised(c.raised);
      (s.(status := Settle(s.control, status), tag := c.tag, pointers := c.pointers), Done({}))
  }

  function Sse(m: Machine, s: Cpu, raised: Word32): (Cpu, Result) {
    if !HasSse(m) then (s, Trap(InvalidOpcode))
    else
      var s' := s.(mxcsr := s.mxcsr + (raised * FE_ALL_EXCEPT));
      if exists b | b in raised * FE_ALL_EXCEPT :: b + SSE_EMASK_SHIFT !in s.mxcsr
      then (s', Trap(SimdFault)) else (s', Done({}))
  }

  /** One step. The value is what the call returns or, for `fegetexceptflag`, stores. */
  function Step(m: Machine, p: Proc, c: Call): (Proc, Result) {
    var s := p.cpu;
    match c
    case Feclearexcept(e) => (p.(cpu := ClearExcept(m, s, e)), Done({}))
    case Fegetexceptflag(e) => (p.(cpu := Probe(m, s)), Done(Lo16(Flags(m, s) * e)))
    case Fesetexceptflag(f, e) => (p.(cpu := SetExceptFlag(m, s, f, e)), Done({}))
    case Feraiseexcept(e) => With(p, RaiseExcept(m, s, e))
    case Fetestexcept(e) => (p.(cpu := Probe(m, s)), Done(Flags(m, s) * e))
    case Fegetround => (p, Done(GetRound(s)))
    case Fesetround(r) => With(p, SetRound(m, s, r))
    case Fegetenv => (Proc(Probe(m, s), p.saved + [EnvOf(m, s)]), Done({}))
    case Feholdexcept => (Proc(HoldExcept(m, s), p.saved + [EnvOf(m, s)]), Done({}))
    case Fesetenv(i) => if i < |p.saved| then With(p, SetEnv(m, s, p.saved[i])) else (p, Trap(Undefined))
    case Feupdateenv(i) =>
      if i < |p.saved| then With(p, UpdateEnv(m, s, p.saved[i])) else (p, Trap(Undefined))
    case Feenableexcept(k) => With(p, EnableExcept(m, s, k))
    case Fedisableexcept(k) => With(p, DisableExcept(m, s, k))
    case Fegetexcept => (p, Done(GetExcept(s)))
    case X87Op(_, _, _, _) => With(p, X87(s, c))
    case SseOp(raised) => With(p, Sse(m, s, raised))
  }

  function With(p: Proc, o: (Cpu, Result)): (Proc, Result) { (p.(cpu := o.0), o.1) }

  /** A run ends at the first fault. */
  datatype Run = Run(proc: Proc, values: seq<Word32>, result: Result)

  function Exec(m: Machine, p: Proc, calls: seq<Call>): (r: Run)
    ensures r.result.Done? ==> |r.values| == |calls|
    ensures |r.values| <= |calls|
    decreases |calls|
  {
    if calls == [] then Run(p, [], Done({}))
    else
      var (p', r) := Step(m, p, calls[0]);
      match r
      case Trap(_) => Run(p', [], r)
      case Done(v) =>
        var rest := Exec(m, p', calls[1..]);
        Run(rest.proc, [v] + rest.values, rest.result)
  }

  // ---------------------------------------------------------------- the invariant

  /** The x87 control word and MXCSR hold the same rounding mode (three places apart)
      and the same exception masks (seven places apart). */
  predicate Agree(control: Word16, mxcsr: Word32) {
    && (forall b | b in ROUND_MASK :: b in control <==> b + SSE_ROUND_SHIFT in mxcsr)
    && (forall b | b in FE_ALL_EXCEPT :: b in control <==> b + SSE_EMASK_SHIFT in mxcsr)
  }

  predicate CpuInv(m: Machine, s: Cpu) {
    Ok(m, s) && (HasSse(m) ==> Agree(s.control, s.mxcsr))
  }

  predicate EnvInv(m: Machine, e: Env) {
    HasSse(m) ==> Loadable(m, GetMxcsr(e)) && Agree(e.control, GetMxcsr(e))
  }

  predicate AllSaved(m: Machine, saved: seq<Env>) {
    forall e | e in saved :: EnvInv(m, e)
  }

  predicate Inv(m: Machine, p: Proc) {
    CpuInv(m, p.cpu) && AllSaved(m, p.saved)
  }

  // ---------------------------------------------------------------- the abstract environment

  /** One rounding mode, one set of enabled exceptions, one set of raised flags. */
  datatype C99 = C99(round: Word32, enabled: Word32, flags: Word32)

  datatype Abstract = Abstract(now: C99, saved: seq<C99>)

  function View(m: Machine, s: Cpu): C99 {
    C99(s.control * ROUND_MASK, FE_ALL_EXCEPT - s.control, Flags(m, s) * FE_ALL_EXCEPT)
  }

  function ViewEnv(m: Machine, e: Env): C99 {
    C99(e.control * ROUND_MASK, FE_ALL_EXCEPT - e.control,
        (if HasSse(m) then e.status + GetMxcsr(e) else e.status) * FE_ALL_EXCEPT)
  }

  function ViewSaved(m: Machine, saved: seq<Env>): seq<C99> {
    seq(|saved|, i requires 0 <= i < |saved| => ViewEnv(m, saved[i]))
  }

  function ViewProc(m: Machine, p: Proc): Abstract {
    Abstract(View(m, p.cpu), ViewSaved(m, p.saved))
  }

  /** What each call means to a program that knows of one environment only. Bits above
      the exceptions are set in what the two BSD functions return. */
  function Meaning(a: Abstract, c: Call): (Abstract, Word32) {
    var n := a.now;
    var high := ONES - FE_ALL_EXCEPT;
    match c
    case Feclearexcept(e) => (a.(now := n.(flags := n.flags - e)), {})
    case Fegetexceptflag(e) => (a, n.flags * e)
    case Fesetexceptflag(f, e) => (a.(now := n.(flags := (n.flags - e) + (f * e))), {})
    case Feraiseexcept(e) => (a.(now := n.(flags := n.flags + e)), {})
    case Fetestexcept(e) => (a, n.flags * e)
    case Fegetround => (a, n.round)
    case Fesetround(r) => if r <= ROUND_MASK then (a.(now := n.(round := r)), {}) else (a, ONES)
    case Fegetenv => (a.(saved := a.saved + [n]), {})
    case Feholdexcept => (Abstract(n.(enabled := {}, flags := {}), a.saved + [n]), {})
    case Fesetenv(i) => (if i < |a.saved| then a.(now := a.saved[i]) else a, {})
    case Feupdateenv(i) =>
      (if i < |a.saved| then a.(now := a.saved[i].(flags := a.saved[i].flags + n.flags)) else a, {})
    case Feenableexcept(k) => (a.(now := n.(enabled := n.enabled + (k * FE_ALL_EXCEPT))), high + n.enabled)
    case Fedisableexcept(k) => (a.(now := n.(enabled := n.enabled - k)), high + n.enabled)
    case Fegetexcept => (a, n.enabled)
    case X87Op(raised, _, _, _) => (a.(now := n.(flags := n.flags + (Raised(raised) * FE_ALL_EXCEPT))), {})
    case SseOp(raised) => (a.(now := n.(flags := n.flags + (raised * FE_ALL_EXCEPT))), {})
  }

  function Meanings(a: Abstract, calls: seq<Call>): (Abstract, seq<Word32>)
    decreases |calls|
  {
    if calls == [] then (a, [])
    else
      var (a', v) := Meaning(a, calls[0]);
      var (a'', vs) := Meanings(a', calls[1..]);
      (a'', [v] + vs)
  }
}
