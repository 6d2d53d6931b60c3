/** The registers behind `fenv.h` and what each of its functions does to them.

    A processor has an x87 unit (control, status and tag words, instruction and operand
    pointers) and, on some machines, an SSE unit whose control and status bits share one
    word, MXCSR.  The process adds the lazily filled `__has_sse` cache. */
module FenvModel {
  import opened Words

  // ---------------------------------------------------------------- constants

  /** 0x3f: invalid, denormal, division by zero, overflow, underflow, inexact. */
  const FE_ALL_EXCEPT: Word32 := {0, 1, 2, 3, 4, 5}
  /** 0x0c00, the union of the four rounding modes. */
  const ROUND_MASK: Word32 := {10, 11}
  const SSE_ROUND_SHIFT := 3
  const SSE_EMASK_SHIFT := 7
  /** 0x8080, the x87 status bits that hardware derives: error summary and busy. */
  const SUMMARY: Word16 := {7, 15}
  /** What FNCLEX clears: the six flags, stack fault, error summary and busy. */
  const CLEX: Word16 := {0, 1, 2, 3, 4, 5, 6, 7, 15}
  /** 0x2000000 in EDX and 0x200000 in EFLAGS. */
  const CPUID_SSE := 25
  const EFLAGS_ID := 21

  // ---------------------------------------------------------------- data

  /** What cannot change while a process runs: whether CPUID exists, what it reports
      in EDX, and whether bit 6 of MXCSR (denormals are zeros) is implemented. */
  datatype Machine = Machine(cpuid: bool, features: Word32, daz: bool)

  predicate HasSse(m: Machine) {
    m.cpuid && CPUID_SSE in m.features
  }

  datatype SseSupport = Yes | No | Unknown

  datatype Cpu = Cpu(
    control: Word16, status: Word16, tag: Word16, pointers: seq<Word16>,
    mxcsr: Word32, hasSse: SseSupport, eflags: Word32)

  /** `fenv_t`: the 32-bit protected-mode FNSTENV image with MXCSR hidden in two
      of its reserved halves. */
  datatype Env = Env(
    control: Word16, mxcsrHi: Word16, status: Word16, mxcsrLo: Word16, tag: Word32, other: seq<Word16>)

  datatype Fault = MathFault | SimdFault | GeneralProtection | InvalidOpcode | Undefined

  /** A call either returns or is cut short by a processor fault. */
  datatype Result = Done(value: Word32) | Trap(fault: Fault)

  function GetMxcsr(e: Env): Word32 { Shl(e.mxcsrHi, 16) + e.mxcsrLo }

  function SetMxcsr(e: Env, x: Word32): Env { e.(mxcsrHi := Hi16(x), mxcsrLo := Lo16(x)) }

  /** `__fe_dfl_env`: control 0x127f, MXCSR 0x1f80, every tag empty. */
  const DFL_ENV := Env({0, 1, 2, 3, 4, 5, 6, 9, 12}, {}, {}, {7, 8, 9, 10, 11, 12}, ONES,
                       [{}, {}, {}, {}, {}, {}, {}, ONES16])

  // ---------------------------------------------------------------- the hardware

  /** Some exception flag is set whose mask bit is clear. */
  predicate Unmasked(control: Word16, status: Word16) {
    exists b | b in FE_ALL_EXCEPT :: b in status && b !in control
  }

  /** The status word with its derived bits made to follow the flags and masks. */
  function Settle(control: Word16, status: Word16): Word16 {
    if Unmasked(control, status) then status + SUMMARY else status - SUMMARY
  }

  /** A waiting x87 instruction faults in this state. */
  predicate Pending(s: Cpu) { 7 in s.status }

  /** LDMXCSR accepts this operand: no reserved bit is set. */
  predicate Loadable(m: Machine, x: Word32) {
    forall b | b in x :: b < 16 && (b != 6 || m.daz)
  }

  /** What FNSTENV writes: the reserved halves read as ones. */
  function StoredEnv(s: Cpu): Env {
    Env(s.control, ONES16, s.status, ONES16, s.tag + (ONES - ONES16), s.pointers)
  }

  /** What FLDENV loads. */
  function LoadEnv(s: Cpu, e: Env): Cpu {
    s.(control := e.control, status := Settle(e.control, e.status),
       tag := Lo16(e.tag), pointers := e.other)
  }

  predicate CacheOk(m: Machine, s: Cpu) {
    s.hasSse.Unknown? || s.hasSse.Yes? == HasSse(m)
  }

  /** What hardware guarantees of its registers, and `__test_sse` of the cache. */
  predicate Ok(m: Machine, s: Cpu) {
    && s.status == Settle(s.control, s.status)
    && Loadable(m, s.mxcsr)
    && CacheOk(m, s)
  }

  // ---------------------------------------------------------------- what each function does

  /** The process after `__HAS_SSE()`: an unknown cache has been filled. The probe
      leaves the ID flag of EFLAGS toggled. */
  function Probe(m: Machine, s: Cpu): Cpu {
    if s.hasSse.Unknown? then
      s.(hasSse := if HasSse(m) then Yes else No,
         eflags := if m.cpuid then Flip(s.eflags, EFLAGS_ID) else s.eflags)
    else s
  }

  /** Probe, then store `x` in MXCSR where there is one. */
  function StoreMxcsr(m: Machine, s: Cpu, x: Word32): Cpu {
    if HasSse(m) then Probe(m, s).(mxcsr := x) else Probe(m, s)
  }

  /** The status bits of both units. */
  function Flags(m: Machine, s: Cpu): Word32 {
    if HasSse(m) then s.status + s.mxcsr else s.status
  }

  /** The status word that `feclearexcept` leaves; all six exceptions at once take the FNCLEX path. */
  function Cleared(control: Word16, status: Word16, e: Word32): Word16 {
    if e == FE_ALL_EXCEPT then status - CLEX else Settle(control, status - e)
  }

  function ClearExcept(m: Machine, s: Cpu, e: Word32): Cpu {
    StoreMxcsr(m, s.(status := Cleared(s.control, s.status, e)), s.mxcsr - e)
  }

  function SetExceptFlag(m: Machine, s: Cpu, flags: Word16, e: Word32): Cpu {
    var status := (s.status - e) + (flags * e);
    StoreMxcsr(m, s.(status := Settle(s.control, status)), (s.mxcsr - e) + (flags * e))
  }

  function RaiseExcept(m: Machine, s: Cpu, e: Word32): (Cpu, Result) {
    var s' := SetExceptFlag(m, s, Lo16(e), e);
    (s', if Pending(s') then Trap(MathFault) else Done({}))
  }

  function SetRound(m: Machine, s: Cpu, round: Word32): (Cpu, Result) {
    if !(round <= ROUND_MASK) then (s, Done(ONES))
    else if Pending(s) then (s, Trap(MathFault))
    else (StoreMxcsr(m, s.(control := (s.control - ROUND_MASK) + Lo16(round)),
                     (s.mxcsr - Shl(ROUND_MASK, SSE_ROUND_SHIFT)) + Shl(round, SSE_ROUND_SHIFT)),
          Done({}))
  }

  /** The image that `fegetenv` and `feholdexcept` store. */
  function EnvOf(m: Machine, s: Cpu): Env {
    if HasSse(m) then SetMxcsr(StoredEnv(s), s.mxcsr) else StoredEnv(s)
  }

  function HoldExcept(m: Machine, s: Cpu): Cpu {
    StoreMxcsr(m, s.(control := s.control + FE_ALL_EXCEPT, status := s.status - CLEX),
               (s.mxcsr - FE_ALL_EXCEPT) + Shl(FE_ALL_EXCEPT, SSE_EMASK_SHIFT))
  }

  function SetEnv(m: Machine, s: Cpu, e: Env): (Cpu, Result) {
    if Pending(s) then (s, Trap(MathFault))
    else
      var s' := LoadEnv(Probe(m, s), e);
      if !HasSse(m) then (s', Done({}))
      else if !Loadable(m, GetMxcsr(e)) then (s', Trap(GeneralProtection))
      else (s'.(mxcsr := GetMxcsr(e)), Done({}))
  }

  function UpdateEnv(m: Machine, s: Cpu, e: Env): (Cpu, Result) {
    var (s', r) := SetEnv(m, Probe(m, s), e);
    if r.Trap? then (s', r) else RaiseExcept(m, s', Flags(m, s) * FE_ALL_EXCEPT)
  }

  /** What `feenableexcept` and `fedisableexcept` return: the complement of the old
      masks, with every bit above the six exceptions set. */
  function OldEnabled(m: Machine, s: Cpu): Word32 {
    ONES - (if HasSse(m) then s.control + Shr(s.mxcsr, SSE_EMASK_SHIFT) else s.control) * FE_ALL_EXCEPT
  }

  function EnableExcept(m: Machine, s: Cpu, mask: Word32): (Cpu, Result) {
    if Pending(s) then (Probe(m, s), Trap(MathFault))
    else
      var k := mask * FE_ALL_EXCEPT;
      var control := s.control - k;
      (StoreMxcsr(m, s.(control := control, status := Settle(control, s.status)),
                  s.mxcsr - Shl(k, SSE_EMASK_SHIFT)),
       Done(OldEnabled(m, s)))
  }

  function DisableExcept(m: Machine, s: Cpu, mask: Word32): (Cpu, Result) {
    if Pending(s) then (Probe(m, s), Trap(MathFault))
    else
      var k := mask * FE_ALL_EXCEPT;
      var control := s.control + k;
      (StoreMxcsr(m, s.(control := control, status := Settle(control, s.status)),
                  s.mxcsr + Shl(k, SSE_EMASK_SHIFT)),
       Done(OldEnabled(m, s)))
  }

  function GetRound(s: Cpu): Word32 { s.control * ROUND_MASK }

  function GetExcept(s: Cpu): Word32 { FE_ALL_EXCEPT - s.control }
}
