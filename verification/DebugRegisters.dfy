// Emulation of MOV to and from debug registers (vmm.cpp).
module DebugRegisters {
  import opened Wrappers

  datatype Vector = InvalidOpcode | GeneralProtection | Debug

  // The contents of a 64-bit register.
  datatype Word = Word(bits: bv64)

  // The exit qualification: which debug register is accessed, the direction,
  // the general register, and the length of the instruction.
  datatype Access = Access(dr: nat, write: bool, gp: nat, length: nat) {
    predicate Valid() {
      dr < 8 && gp < 16
    }
  }

  const STACK_POINTER := 4

  // DR0-3, DR6 and DR7, the saved general registers, the guest's RSP as the
  // VMCS holds it, and what was injected.
  datatype State = State(
    dr: seq<Word>, dr6: Word, dr7: Word, regs: seq<Word>, rsp: Word, rip: nat,
    tf: bool, cpl: nat, de: bool, injected: seq<Vector>)
  {
    ghost predicate Valid() {
      |dr| == 4 && |regs| == 16
    }
  }

  // ---------------------------------------------------------------------
  // Bits
  // ---------------------------------------------------------------------

  predicate GeneralDetect(dr7: Word) {
    dr7.bits & 0x2000 != 0
  }

  predicate UpperHalfClear(v: Word) {
    v.bits >> 32 == 0
  }

  function NextRip(rip: nat, length: nat): nat {
    (rip + length) % 0x1_0000_0000_0000_0000
  }

  // DR6 with its fixed bits: 4-11 and 17-31 are one, 12 is zero.
  function FixDr6(v: Word): Word {
    Word((v.bits | 0xFFFE_0FF0) & 0xFFFF_FFFF_FFFF_EFFF)
  }

  // DR7 with its fixed bits: 10 is one, 12, 14 and 15 are zero.
  function FixDr7(v: Word): Word {
    Word((v.bits | 0x400) & 0xFFFF_FFFF_FFFF_2FFF)
  }

  // What a #DB for general detect does: in DR6, B0-3 go and BD comes; in DR7,
  // GD goes.
  function DetectDr6(v: Word): Word {
    Word((v.bits & 0xFFFF_FFFF_FFFF_FFF0) | 0x2000)
  }

  function DetectDr7(v: Word): Word {
    Word(v.bits & 0xFFFF_FFFF_FFFF_DFFF)
  }

  // The fixed bits and the upper half are as the architecture has them.
  predicate Dr6Fixed(v: Word) {
    v.bits & 0xFFFF_FFFF_FFFE_1FF0 == 0xFFFE_0FF0
  }

  predicate Dr7Fixed(v: Word) {
    v.bits & 0xFFFF_FFFF_0000_D400 == 0x400
  }

  // The bits of a word that a mask selects.
  function Masked(v: Word, mask: bv64): Word {
    Word(v.bits & mask)
  }

  lemma FixDr6Fixes(v: Word)
    requires UpperHalfClear(v)
    ensures Dr6Fixed(FixDr6(v))
  {
  }

  lemma FixDr7Fixes(v: Word)
    ensures UpperHalfClear(v) ==> Dr7Fixed(FixDr7(v))
    ensures GeneralDetect(FixDr7(v)) <==> GeneralDetect(v)
  {
  }

  lemma Dr6FixedBits(v: Word)
    ensures Masked(FixDr6(v), 0xFFFE_1FF0) == Word(0xFFFE_0FF0)
  {
  }

  lemma Dr6FreeBits(v: Word)
    ensures Masked(FixDr6(v), 0xFFFF_FFFF_0001_E00F) == Masked(v, 0xFFFF_FFFF_0001_E00F)
  {
  }

  lemma Dr7FixedBits(v: Word)
    ensures Masked(FixDr7(v), 0xD400) == Word(0x400)
  {
  }

  lemma Dr7FreeBits(v: Word)
    ensures Masked(FixDr7(v), 0xFFFF_FFFF_FFFF_2BFF) == Masked(v, 0xFFFF_FFFF_FFFF_2BFF)
  {
  }

  // Writing keeps every bit outside the fixed ones as it was written.
  lemma {:induction false} WrittenBits(v: Word)
    ensures Masked(FixDr6(v), 0xFFFE_1FF0) == Word(0xFFFE_0FF0)
    ensures Masked(FixDr6(v), 0xFFFF_FFFF_0001_E00F) == Masked(v, 0xFFFF_FFFF_0001_E00F)
    ensures Masked(FixDr7(v), 0xD400) == Word(0x400)
    ensures Masked(FixDr7(v), 0xFFFF_FFFF_FFFF_2BFF) == Masked(v, 0xFFFF_FFFF_FFFF_2BFF)
  {
    hide *;
    Dr6FixedBits(v);
    Dr6FreeBits(v);
    Dr7FixedBits(v);
    Dr7FreeBits(v);
  }

  lemma DetectBit(v: Word)
    ensures Masked(DetectDr6(v), 0x200F) == Word(0x2000)
  {
  }

  lemma DetectFreeLow(v: Word)
    ensures Masked(DetectDr6(v), 0x1FF0) == Masked(v, 0x1FF0)
  {
  }

  lemma DetectFreeHigh(v: Word)
    ensures Masked(DetectDr6(v), 0xFFFF_FFFF_FFFF_C000) == Masked(v, 0xFFFF_FFFF_FFFF_C000)
  {
  }

  lemma DetectGone(v: Word)
    ensures Masked(DetectDr7(v), 0x2000) == Word(0)
  {
  }

  lemma DetectFreeDr7(v: Word)
    ensures Masked(DetectDr7(v), 0xFFFF_FFFF_FFFF_DFFF) == Masked(v, 0xFFFF_FFFF_FFFF_DFFF)
  {
  }

  // B0-3 go and BD comes in DR6, GD goes in DR7, and no other bit changes.
  lemma {:induction false} DetectBits(dr6: Word, dr7: Word)
    ensures Masked(DetectDr6(dr6), 0x200F) == Word(0x2000)
    ensures Masked(DetectDr6(dr6), 0x1FF0) == Masked(dr6, 0x1FF0)
    ensures Masked(DetectDr6(dr6), 0xFFFF_FFFF_FFFF_C000) == Masked(dr6, 0xFFFF_FFFF_FFFF_C000)
    ensures Masked(DetectDr7(dr7), 0x2000) == Word(0)
    ensures Masked(DetectDr7(dr7), 0xFFFF_FFFF_FFFF_DFFF) == Masked(dr7, 0xFFFF_FFFF_FFFF_DFFF)
  {
    hide *;
    DetectBit(dr6);
    DetectFreeLow(dr6);
    DetectFreeHigh(dr6);
    DetectGone(dr7);
    DetectFreeDr7(dr7);
  }

  lemma DetectKeepsDr6(v: Word)
    requires Dr6Fixed(v)
    ensures Dr6Fixed(DetectDr6(v))
  {
  }

  lemma DetectKeepsDr7(v: Word)
    requires Dr7Fixed(v)
    ensures Dr7Fixed(DetectDr7(v))
  {
  }

  lemma DetectClears(v: Word)
    ensures !GeneralDetect(DetectDr7(v))
  {
  }

  // ---------------------------------------------------------------------
  // What an access does
  // ---------------------------------------------------------------------

  // DR4 and DR5 are names for DR6 and DR7.
  function Alias(n: nat): nat {
    if n == 4 then 6 else if n == 5 then 7 else n
  }

  function ReadDr(s: State, n: nat): Word
    requires s.Valid() && n < 8
  {
    var r := Alias(n);
    if r < 4 then s.dr[r] else if r == 6 then s.dr6 else s.dr7
  }

  function WriteDr(s: State, n: nat, v: Word): (t: State)
    requires s.Valid() && n < 8
    ensures t.Valid()
  {
    var r := Alias(n);
    if r < 4 then s.(dr := s.dr[r := v])
    else if r == 6 then s.(dr6 := FixDr6(v))
    else s.(dr7 := FixDr7(v))
  }

  // What a write leaves in a debug register: the value, with the fixed bits.
  function Fixed(n: nat, v: Word): Word {
    if Alias(n) == 6 then FixDr6(v) else if Alias(n) == 7 then FixDr7(v) else v
  }

  // A general register as the guest sees it: RSP comes from the VMCS, the
  // others from the saved registers.
  function GuestRegister(s: State, n: nat): Word
    requires s.Valid() && n < 16
  {
    if n == STACK_POINTER then s.rsp else s.regs[n]
  }

  // The fault that an access raises, in the order of precedence.
  function FaultOf(s: State, a: Access): Option<Vector>
    requires s.Valid() && a.Valid()
  {
    if s.cpl != 0 then Some(GeneralProtection)
    else if s.de && a.dr in {4, 5} then Some(InvalidOpcode)
    else if GeneralDetect(s.dr7) then Some(Debug)
    else if a.write && Alias(a.dr) in {6, 7} && !UpperHalfClear(GuestRegister(s, a.gp)) then Some(GeneralProtection)
    else None
  }

  // A fault leaves everything as it was, but #DB records its cause.
  function Faulted(s: State, v: Vector): (t: State)
    requires s.Valid()
    ensures t.Valid()
  {
    var t := s.(injected := s.injected + [v]);
    if v == Debug then t.(dr6 := DetectDr6(s.dr6), dr7 := DetectDr7(s.dr7)) else t
  }

  // The instruction is done: a set trap flag makes it a single step.
  function Advanced(s: State, length: nat): (t: State)
    requires s.Valid()
    ensures t.Valid()
  {
    var t := s.(rip := NextRip(s.rip, length));
    if s.tf then t.(injected := t.injected + [Debug]) else t
  }

  function Moved(s: State, a: Access): (t: State)
    requires s.Valid() && a.Valid()
    ensures t.Valid()
  {
    if a.write then WriteDr(s, a.dr, GuestRegister(s, a.gp))
    else s.(regs := s.regs[a.gp := ReadDr(s, a.dr)])
  }

  // VmmVmExitHandler saves the guest's RSP among the registers.
  function Entered(s: State): (t: State)
    requires s.Valid()
    ensures t.Valid()
  {
    s.(regs := s.regs[STACK_POINTER := s.rsp])
  }

  function Handled(s: State, a: Access): (t: State)
    requires s.Valid() && a.Valid()
    ensures t.Valid()
  {
    match FaultOf(s, a)
    case Some(v) => Faulted(Entered(s), v)
    case None => Advanced(Moved(Entered(s), a), a.length)
  }

  // ---------------------------------------------------------------------
  // Properties of one access
  // ---------------------------------------------------------------------

  ghost predicate SameRegisters(s: State, t: State)
    requires s.Valid() && t.Valid()
  {
    forall n: nat :: n < 16 ==> GuestRegister(t, n) == GuestRegister(s, n)
  }

  lemma Conditions(dr7: Word, v: Word)
    ensures GeneralDetect(dr7) <==> Masked(dr7, 0x2000) != Word(0)
    ensures UpperHalfClear(v) <==> Masked(v, 0xFFFF_FFFF_0000_0000) == Word(0)
  {
  }

  // The outcome of an access by its conditions, in their order: privilege, the
  // obsolete names under CR4.DE, general detect, a reserved upper half.
  lemma {:induction false} OutcomeTable(s: State, a: Access)
    requires s.Valid() && a.Valid()
    ensures var v := if a.gp == STACK_POINTER then s.rsp else s.regs[a.gp];
      var r := s.(regs := s.regs[STACK_POINTER := s.rsp]);
      if s.cpl != 0 then
        Handled(s, a) == r.(injected := s.injected + [GeneralProtection])
      else if s.de && (a.dr == 4 || a.dr == 5) then
        Handled(s, a) == r.(injected := s.injected + [InvalidOpcode])
      else if Masked(s.dr7, 0x2000) != Word(0) then
        DetectRaised(s, Handled(s, a))
      else if a.write && a.dr >= 4 && Masked(v, 0xFFFF_FFFF_0000_0000) != Word(0) then
        Handled(s, a) == r.(injected := s.injected + [GeneralProtection])
      else
        Effect(s, Handled(s, a), a, v)
  {
    var v := if a.gp == STACK_POINTER then s.rsp else s.regs[a.gp];
    Conditions(s.dr7, v);
    assert Alias(a.dr) in {6, 7} <==> a.dr >= 4;
    hide GeneralDetect, UpperHalfClear, FixDr6, FixDr7, DetectDr6, DetectDr7, Masked, Effect, DetectRaised;
    if FaultOf(s, a) == Some(Debug) {
      DetectHolds(s, a);
    } else if FaultOf(s, a) == None {
      EffectHolds(s, a);
    }
  }

  // A #DB that records its cause in DR6 and clears DR7.GD.
  ghost predicate DetectRaised(s: State, t: State)
    requires s.Valid()
  {
    && t == s.(regs := s.regs[STACK_POINTER := s.rsp], injected := s.injected + [Debug], dr6 := t.dr6, dr7 := t.dr7)
    && Masked(t.dr6, 0x200F) == Word(0x2000) && Masked(t.dr6, 0x1FF0) == Masked(s.dr6, 0x1FF0)
    && Masked(t.dr6, 0xFFFF_FFFF_FFFF_C000) == Masked(s.dr6, 0xFFFF_FFFF_FFFF_C000)
    && Masked(t.dr7, 0x2000) == Word(0) && Masked(t.dr7, 0xFFFF_FFFF_FFFF_DFFF) == Masked(s.dr7, 0xFFFF_FFFF_FFFF_DFFF)
  }

  lemma {:induction false} DetectHolds(s: State, a: Access)
    requires s.Valid() && a.Valid() && FaultOf(s, a) == Some(Debug)
    ensures DetectRaised(s, Handled(s, a))
  {
    hide GeneralDetect, UpperHalfClear, FixDr6, FixDr7, DetectDr6, DetectDr7, Masked;
    DetectBits(s.dr6, s.dr7);
  }

  // The instruction is done.  A write changes the named debug register only, a
  // read the saved copy of the named general register only; DR4 and DR5 name
  // DR6 and DR7.
  ghost predicate Effect(s: State, t: State, a: Access, v: Word)
    requires s.Valid() && a.Valid()
  {
    var saved := s.regs[STACK_POINTER := s.rsp];
    var read := if a.dr < 4 then s.dr[a.dr] else if a.dr == 4 || a.dr == 6 then s.dr6 else s.dr7;
    && t == s.(
         rip := t.rip, injected := s.injected + (if s.tf then [Debug] else []),
         regs := if a.write then saved else saved[a.gp := read],
         dr := if a.write && a.dr < 4 then s.dr[a.dr := v] else s.dr,
         dr6 := t.dr6, dr7 := t.dr7)
    && t.rip == (s.rip + a.length) % 0x1_0000_0000_0000_0000
    && (if a.write && (a.dr == 4 || a.dr == 6)
        then Masked(t.dr6, 0xFFFE_1FF0) == Word(0xFFFE_0FF0)
          && Masked(t.dr6, 0xFFFF_FFFF_0001_E00F) == Masked(v, 0xFFFF_FFFF_0001_E00F)
        else t.dr6 == s.dr6)
    && (if a.write && (a.dr == 5 || a.dr == 7)
        then Masked(t.dr7, 0xD400) == Word(0x400)
          && Masked(t.dr7, 0xFFFF_FFFF_FFFF_2BFF) == Masked(v, 0xFFFF_FFFF_FFFF_2BFF)
        else t.dr7 == s.dr7)
  }

  lemma {:induction false} EffectHolds(s: State, a: Access)
    requires s.Valid() && a.Valid() && FaultOf(s, a) == None
    ensures Effect(s, Handled(s, a), a, if a.gp == STACK_POINTER then s.rsp else s.regs[a.gp])
  {
    hide GeneralDetect, UpperHalfClear, FixDr6, FixDr7, DetectDr6, DetectDr7, Masked;
    var v := if a.gp == STACK_POINTER then s.rsp else s.regs[a.gp];
    WrittenBits(v);
  }

  // An access either raises one fault, with RIP and the guest's registers as
  // they were, or takes effect and moves RIP past the instruction.
  lemma {:induction false} FaultOrEffect(s: State, a: Access)
    requires s.Valid() && a.Valid()
    ensures var t := Handled(s, a);
      match FaultOf(s, a)
      case Some(v) =>
        && t.injected == s.injected + [v] && t.rip == s.rip && t.dr == s.dr && SameRegisters(s, t)
        && (v != Debug ==> t.dr6 == s.dr6 && t.dr7 == s.dr7)
        && (v == Debug ==> GeneralDetect(s.dr7) && !GeneralDetect(t.dr7))
      case None =>
        && t.rip == (s.rip + a.length) % 0x1_0000_0000_0000_0000
        && t.injected == s.injected + (if s.tf then [Debug] else [])
        && (a.write ==>
              && SameRegisters(s, t)
              && ReadDr(t, a.dr) == Fixed(a.dr, GuestRegister(s, a.gp))
              && forall n: nat :: n < 8 && Alias(n) != Alias(a.dr) ==> ReadDr(t, n) == ReadDr(s, n))
        && (!a.write ==> t.dr == s.dr && t.dr6 == s.dr6 && t.dr7 == s.dr7)
  {
    hide GeneralDetect, UpperHalfClear, FixDr6, FixDr7, DetectDr6, DetectDr7;
    if FaultOf(s, a) == Some(Debug) {
      DetectClears(s.dr7);
    }
  }

  // After a general-detect fault, the same access does not raise it again.
  lemma {:induction false} DetectedOnce(s: State, a: Access)
    requires s.Valid() && a.Valid() && FaultOf(s, a) == Some(Debug)
    ensures FaultOf(Handled(s, a), a) != Some(Debug)
  {
    hide GeneralDetect, UpperHalfClear, FixDr6, FixDr7, DetectDr6, DetectDr7;
    DetectClears(s.dr7);
  }

  // Without CR4.DE, DR4 and DR5 behave as DR6 and DR7 in every state.
  lemma {:induction false} AliasExact(s: State, a: Access)
    requires s.Valid() && a.Valid() && a.dr in {4, 5}
    ensures Handled(s, a) == Handled(s, a.(dr := Alias(a.dr))) <==>
      !s.de || s.cpl != 0
  {
    hide GeneralDetect, UpperHalfClear, FixDr6, FixDr7, DetectDr6, DetectDr7;
    if s.de && s.cpl == 0 {
      var t := Handled(s, a.(dr := Alias(a.dr)));
      assert Handled(s, a).injected == s.injected + [InvalidOpcode];
      assert t.injected != s.injected + [InvalidOpcode] by {
        OtherInjection(s, a.(dr := Alias(a.dr)));
      }
    }
  }

  lemma {:induction false} OtherInjection(s: State, a: Access)
    requires s.Valid() && a.Valid() && a.dr !in {4, 5}
    ensures Handled(s, a).injected != s.injected + [InvalidOpcode]
  {
    hide GeneralDetect, UpperHalfClear, FixDr6, FixDr7, DetectDr6, DetectDr7;
    var t := Handled(s, a);
    if |t.injected| > |s.injected| {
      assert t.injected[|s.injected|] != InvalidOpcode;
      assert (s.injected + [InvalidOpcode])[|s.injected|] == InvalidOpcode;
    }
  }

  // A read that does not fault gives the guest the debug register's value if
  // and only if its target is not RSP (or RSP has that value already): the
  // handler updates the saved copy of RSP, which is not loaded back.
  lemma {:induction false} ReadReachesGuest(s: State, a: Access)
    requires s.Valid() && a.Valid() && !a.write && FaultOf(s, a) == None
    ensures GuestRegister(Handled(s, a), a.gp) == ReadDr(s, a.dr) <==>
      a.gp != STACK_POINTER || s.rsp == ReadDr(s, a.dr)
    ensures forall n: nat :: n < 16 && n != a.gp ==>
      GuestRegister(Handled(s, a), n) == GuestRegister(s, n)
  {
    hide GeneralDetect, UpperHalfClear, FixDr6, FixDr7, DetectDr6, DetectDr7;
  }

  // Reading back what was written gives the value, with the fixed bits of DR6
  // and DR7; the read faults if and only if the write set general detect.
  lemma {:induction false} WriteThenRead(s: State, w: Access, r: Access)
    requires s.Valid() && w.Valid() && r.Valid() && w.write && !r.write && FaultOf(s, w) == None
    requires Alias(r.dr) == Alias(w.dr) && r.gp != STACK_POINTER && (r.dr in {4, 5} ==> !s.de)
    ensures var v, t := GuestRegister(s, w.gp), Handled(s, w);
      && (FaultOf(t, r) == Some(Debug) <==> Alias(w.dr) == 7 && GeneralDetect(v))
      && (FaultOf(t, r) != Some(Debug) ==>
            && FaultOf(t, r) == None
            && GuestRegister(Handled(t, r), r.gp) == Fixed(w.dr, v))
  {
    hide GeneralDetect, UpperHalfClear, FixDr6, FixDr7, DetectDr6, DetectDr7;
    var v, t := GuestRegister(s, w.gp), Handled(s, w);
    FixDr7Fixes(v);
  }

  // ---------------------------------------------------------------------
  // Runs
  // ---------------------------------------------------------------------

  ghost predicate BitsFixed(s: State) {
    Dr6Fixed(s.dr6) && Dr7Fixed(s.dr7)
  }

  lemma {:induction false} HandledKeepsBits(s: State, a: Access)
    requires s.Valid() && a.Valid() && BitsFixed(s)
    ensures BitsFixed(Handled(s, a))
  {
    hide GeneralDetect, UpperHalfClear, FixDr6, FixDr7, DetectDr6, DetectDr7, Dr6Fixed, Dr7Fixed;
    DetectKeepsDr6(s.dr6);
    DetectKeepsDr7(s.dr7);
    var v := GuestRegister(s, a.gp);
    if UpperHalfClear(v) {
      FixDr6Fixes(v);
      FixDr7Fixes(v);
    }
  }

  function HandledAll(s: State, accesses: seq<Access>): (t: State)
    requires s.Valid() && forall a <- accesses :: a.Valid()
    ensures t.Valid()
  {
    if accesses == [] then s
    else Handled(HandledAll(s, accesses[..|accesses| - 1]), accesses[|accesses| - 1])
  }

  // Over every sequence of accesses the fixed bits and the upper halves of DR6
  // and DR7 stay as they are.
  lemma {:induction false} RunKeepsBits(s: State, accesses: seq<Access>)
    requires s.Valid() && (forall a <- accesses :: a.Valid()) && BitsFixed(s)
    ensures BitsFixed(HandledAll(s, accesses))
  {
    if accesses != [] {
      var front := accesses[..|accesses| - 1];
      RunKeepsBits(s, front);
      HandledKeepsBits(HandledAll(s, front), accesses[|accesses| - 1]);
    }
  }

  // ---------------------------------------------------------------------
  // The code
  // ---------------------------------------------------------------------

  class Cpu {
    var s: State

    // VmmpInjectInterruption.
    method InjectInterruption(v: Vector)
      modifies this
      ensures s == old(s).(injected := old(s).injected + [v])
    {
      s := s.(injected := s.injected + [v]);
    }

    // VmmpAdjustGuestInstructionPointer.
    method AdjustGuestInstructionPointer(length: nat)
      requires s.Valid()
      modifies this
      ensures s == Advanced(old(s), length)
      ensures s.rip == (old(s).rip + length) % 0x1_0000_0000_0000_0000
    {
      s := s.(rip := NextRip(s.rip, length));
      if s.tf {
        InjectInterruption(Debug);
      }
    }

    // The exit handler around VmmpHandleDrAccess.
    method HandleVmExit(a: Access)
      requires s.Valid() && a.Valid()
      modifies this
      ensures s == Handled(old(s), a)
    {
      s := s.(regs := s.regs[STACK_POINTER := s.rsp]);
      HandleDrAccess(a);
    }

    // VmmpHandleDrAccess.
    method HandleDrAccess(a: Access)
      requires s.Valid() && a.Valid() && s.regs[STACK_POINTER] == s.rsp
      modifies this
      ensures s == match FaultOf(old(s), a)
        case Some(v) => Faulted(old(s), v)
        case None => Advanced(Moved(old(s), a), a.length)
    {
      hide UpperHalfClear, GeneralDetect, FixDr6, FixDr7, DetectDr6, DetectDr7;
      if s.cpl != 0 {
        InjectInterruption(GeneralProtection);
        return;
      }
      var register := a.dr;
      if register == 4 || register == 5 {
        if s.de {
          InjectInterruption(InvalidOpcode);
          return;
        } else if register == 4 {
          register := 6;
        } else {
          register := 7;
        }
      }
      if GeneralDetect(s.dr7) {
        s := s.(dr6 := DetectDr6(s.dr6));
        InjectInterruption(Debug);
        s := s.(dr7 := DetectDr7(s.dr7));
        return;
      }
      var value := s.regs[a.gp];
      if a.write {
        if (register == 6 || register == 7) && !UpperHalfClear(value) {
          InjectInterruption(GeneralProtection);
          return;
        }
      }
      if a.write {
        if register < 4 {
          s := s.(dr := s.dr[register := value]);
        } else if register == 6 {
          s := s.(dr6 := FixDr6(value));
        } else {
          s := s.(dr7 := FixDr7(value));
        }
      } else {
        if register < 4 {
          s := s.(regs := s.regs[a.gp := s.dr[register]]);
        } else if register == 6 {
          s := s.(regs := s.regs[a.gp := s.dr6]);
        } else {
          s := s.(regs := s.regs[a.gp := s.dr7]);
        }
      }
      AdjustGuestInstructionPointer(a.length);
    }
  }
}
