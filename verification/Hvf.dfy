/**
 `HvfVcpu::run`: one entry into the guest, with the work an exit leaves behind (a load to
 deliver, a program counter to advance) done at the start of the next call.

 The hypervisor is an abstract register file. `budget` is the number of hypervisor calls
 that succeed before one fails; what the guest does is an arbitrary `Guest` value.
 */
module Hvf {
  import opened Basics

  type Byte = b: int | 0 <= b < 256

  /** X0 to X30, then PC. */
  type Regs = r: seq<Word> | |r| == 32 witness seq(32, _ => 0)

  type Buffer = b: seq<Byte> | |b| == 8 witness seq(8, _ => 0)

  const PC := 31

  datatype Load = Load(addr: Word, len: nat, srt: nat) {
    predicate Valid() { (len == 1 || len == 2 || len == 4 || len == 8) && srt < 32 }
  }

  /** How the guest left, and what it left in the registers. */
  datatype Guest = Guest(regs: Regs, reason: nat, syndrome: Word, pa: Word)

  datatype Timer = Timer(ctl: Word, cval: Word, now: Word)

  datatype Exit =
    | Breakpoint | Canceled | CpuOn(mpidr: Word, entry: Word, context: Word) | HypervisorCall
    | MmioRead(addr: Word, len: nat) | MmioWrite(addr: Word, data: seq<Byte>)
    | SecureMonitorCall | Shutdown | SystemRegister | VtimerActivated
    | WaitForEvent | WaitForEventExpired | WaitForEventTimeout(nanos: nat)

  datatype Outcome = Exited(exit: Exit) | Failed | Panicked

  datatype State = State(regs: Regs, buf: Buffer, load: Option<Load>, advance: bool) {
    predicate Valid() { load.Some? ==> load.value.Valid() }
  }

  // ----- Little endian

  function FromLe(bytes: seq<Byte>): nat {
    if bytes == [] then 0 else bytes[0] + 256 * FromLe(bytes[1..])
  }

  function ToLe(v: nat, n: nat): (r: seq<Byte>)
    ensures |r| == n
  {
    if n == 0 then [] else [v % 256] + ToLe(v / 256, n - 1)
  }

  function Power(n: nat): (p: nat)
    ensures p > 0
  {
    if n == 0 then 1 else 256 * Power(n - 1)
  }

  // ----- Fields of the exception syndrome

  function Field(syndrome: Word, shift: nat, width: nat): nat
    requires shift > 0 && width > 0
  {
    (syndrome / shift) % width
  }

  function ExceptionClass(syndrome: Word): nat { Field(syndrome, 0x400_0000, 64) }

  const EC_WFX := 0x1
  const EC_HVC := 0x16
  const EC_SMC := 0x17
  const EC_SYSREG := 0x18
  const EC_DATAABORT := 0x24
  const EC_BKPT := 0x3c

  function AccessLen(syndrome: Word): nat {
    match Field(syndrome, 0x40_0000, 4) case 0 => 1 case 1 => 2 case 2 => 4 case _ => 8
  }

  function AccessReg(syndrome: Word): nat { Field(syndrome, 0x1_0000, 32) }

  predicate IsWrite(syndrome: Word) { Field(syndrome, 64, 2) == 1 }

  // ----- Before the guest is entered

  function Loaded(buf: Buffer, load: Load): Word
    requires load.Valid()
  {
    LeBound(buf[..load.len]);
    FromLe(buf[..load.len])
  }

  /** The pending load; `None` when the register write fails. The load is forgotten either way. */
  function DeliverLoad(s: State, budget: nat): (State, Option<nat>)
    requires s.Valid()
  {
    var s' := s.(load := None);
    if s.load.None? || s.load.value.srt == 31 then (s', Some(budget))
    else if budget == 0 then (s', None)
    else (s'.(regs := s.regs[s.load.value.srt := Loaded(s.buf, s.load.value)]), Some(budget - 1))
  }

  /** The pending advance: a read and a write of PC, forgotten only when both succeed. */
  function AdvancePc(s: State, budget: nat): (State, Option<nat>) {
    if !s.advance then (s, Some(budget))
    else if budget < 2 then (s, None)
    else (s.(regs := s.regs[PC := (s.regs[PC] + 4) % WORD], advance := false), Some(budget - 2))
  }

  /** Everything up to the entry; `Some` is the budget left once the guest has run. */
  function Prologue(s: State, irq: bool, budget: nat): (r: (State, Option<nat>))
    requires s.Valid()
    ensures r.0.load == None
  {
    var (s1, b1) := DeliverLoad(s, budget);
    if b1.None? then (s1, None) else
    var (s2, b2) := AdvancePc(s1, b1.value);
    if b2.None? then (s2, None) else
    var calls := if irq then 2 else 1;
    (s2, if b2.value < calls then None else Some(b2.value - calls))
  }

  // ----- After the guest has left; `s.regs` are the registers it left behind

  function HandleHvc(s: State, budget: nat): (State, Outcome) {
    var x0 := s.regs[0];
    if budget == 0 then (s, Failed)
    else if x0 == 0x8400_0000 || x0 == 0x8400_0006 then
      if budget < 2 then (s, Failed) else (s.(regs := s.regs[0 := 2]), Exited(HypervisorCall))
    else if x0 == 0x8400_0008 || x0 == 0x8400_0009 then (s, Exited(Shutdown))
    else if x0 == 0xc400_0003 then
      if budget < 5 then (s, Failed)
      else (s.(regs := s.regs[0 := 0]), Exited(CpuOn(s.regs[1], s.regs[2], s.regs[3])))
    else (s, Exited(HypervisorCall))
  }

  function HandleSysreg(s: State, syndrome: Word, budget: nat): (State, Outcome) {
    var rt := Field(syndrome, 32, 32);
    if syndrome % 2 == 1 && rt < 31 then
      if budget == 0 then (s, Failed) else (s.(regs := s.regs[rt := 0], advance := true), Exited(SystemRegister))
    else (s.(advance := true), Exited(SystemRegister))
  }

  function Stored(s: State, syndrome: Word): Word {
    if AccessReg(syndrome) < 31 then s.regs[AccessReg(syndrome)] else 0
  }

  function HandleDataAbort(s: State, g: Guest, budget: nat): (State, Outcome) {
    var s' := s.(advance := true);
    var len, srt := AccessLen(g.syndrome), AccessReg(g.syndrome);
    if !IsWrite(g.syndrome) then (s'.(load := Some(Load(g.pa, len, srt))), Exited(MmioRead(g.pa, len)))
    else if srt < 31 && budget == 0 then (s', Failed)
    else if len == 2 then (s', Panicked)
    else
      var data := ToLe(Stored(s, g.syndrome) % Power(len), len);
      (s'.(buf := data + s.buf[len..]), Exited(MmioWrite(g.pa, data)))
  }

  const TIMER_FREQUENCY := 24_000_000
  const NANOS_PER_SECOND := 1_000_000_000

  /** The product of two 64-bit numbers, which wraps in a release build. */
  function Timeout(t: Timer): nat
    requires t.now <= t.cval
  {
    ((t.cval - t.now) * (NANOS_PER_SECOND / TIMER_FREQUENCY)) % WORD
  }

  function HandleWfx(s: State, t: Timer, budget: nat): (State, Outcome) {
    var s' := s.(advance := true);
    if budget == 0 then (s, Failed)
    else if t.ctl % 2 == 0 || (t.ctl / 2) % 2 == 1 then (s', Exited(WaitForEvent))
    else if budget == 1 then (s', Failed)
    else if t.now > t.cval then (s', Exited(WaitForEventExpired))
    else (s', Exited(WaitForEventTimeout(Timeout(t))))
  }

  function Handle(s: State, g: Guest, t: Timer, budget: nat): (r: (State, Outcome))
    ensures s.Valid() ==> r.0.Valid()
  {
    var ec := ExceptionClass(g.syndrome);
    if g.reason == 0 then (s, Exited(Canceled))
    else if g.reason == 2 then (s, Exited(VtimerActivated))
    else if g.reason != 1 then (s, if budget == 0 then Failed else Panicked)
    else if ec == EC_HVC then HandleHvc(s, budget)
    else if ec == EC_SMC then (s.(advance := true), Exited(SecureMonitorCall))
    else if ec == EC_SYSREG then HandleSysreg(s, g.syndrome, budget)
    else if ec == EC_DATAABORT then HandleDataAbort(s, g, budget)
    else if ec == EC_BKPT then (s, Exited(Breakpoint))
    else if ec == EC_WFX then HandleWfx(s, t, budget)
    else (s, Panicked)
  }

  // ----- One call

  /** One call's surroundings. `buf` is what the device model left in the buffer. */
  datatype Input = Input(irq: bool, budget: nat, buf: Buffer, guest: Guest, timer: Timer)

  function Call(s: State, i: Input): (r: (State, Outcome))
    requires s.Valid()
    ensures r.0.Valid()
  {
    var (s1, left) := Prologue(s.(buf := i.buf), i.irq, i.budget);
    match left
    case None => (s1, Failed)
    case Some(b) => Handle(s1.(regs := i.guest.regs), i.guest, i.timer, b)
  }

  /** The registers the guest is entered with, if it is entered. */
  ghost function Entry(s: State, i: Input): Option<Regs>
    requires s.Valid()
  {
    var (s1, left) := Prologue(s.(buf := i.buf), i.irq, i.budget);
    if left.Some? then Some(s1.regs) else None
  }

  lemma {:induction false} LeBound(bytes: seq<Byte>)
    ensures FromLe(bytes) < Power(|bytes|)
    ensures |bytes| <= 8 ==> FromLe(bytes) < WORD
  {
    if bytes == [] {
    } else {
      LeBound(bytes[1..]);
    }
    assert Power(8) == WORD;
    if |bytes| <= 8 {
      PowerGrows(|bytes|, 8);
    }
  }

  lemma PowerGrows(m: nat, n: nat)
    requires m <= n
    ensures Power(m) <= Power(n)
  {
  }

  /** Bytes written and read back are the low bytes of the value. */
  lemma {:induction false} LeRoundTrip(v: nat, n: nat)
    ensures FromLe(ToLe(v, n)) == v % Power(n)
    decreases n
  {
    if n == 0 {
    } else {
      LeRoundTrip(v / 256, n - 1);
      assert ToLe(v, n)[1..] == ToLe(v / 256, n - 1);
      ModStep(v, Power(n - 1));
    }
  }

  lemma ModStep(v: nat, p: nat)
    requires p > 0
    ensures v % (256 * p) == v % 256 + 256 * ((v / 256) % p)
  {
    var q, r := v / 256, v % 256;
    var a, b := q / p, q % p;
    assert v == 256 * (a * p + b) + r;
    assert 256 * (a * p + b) + r == a * (256 * p) + (256 * b + r);
    assert 0 <= 256 * b + r < 256 * p;
    DivModUnique(v, 256 * p, a, 256 * b + r);
  }

  lemma DivModUnique(v: nat, d: nat, q: nat, r: nat)
    requires d > 0 && r < d && v == q * d + r
    ensures v % d == r
  {
    var q', r' := v / d, v % d;
    var k := q - q';
    assert k * d == r' - r;
    assert k >= 1 ==> k * d >= d;
    assert k <= -1 ==> k * d + d <= 0;
  }

  /** Byte `k` of a little-endian number is the one with weight 256 to the power `k`. */
  lemma {:induction false} LeByte(bytes: seq<Byte>, k: nat)
    requires k < |bytes|
    ensures (FromLe(bytes) / Power(k)) % 256 == bytes[k]
    decreases k
  {
    if k == 0 {
    } else {
      LeByte(bytes[1..], k - 1);
      DivStep(bytes[0], FromLe(bytes[1..]), Power(k - 1));
    }
  }

  lemma DivStep(b: Byte, v: nat, p: nat)
    requires p > 0
    ensures (b + 256 * v) / (256 * p) == v / p
  {
    var q, r := v / p, v % p;
    assert b + 256 * v == (256 * p) * q + (b + 256 * r);
    assert 0 <= b + 256 * r < 256 * p;
    QuotientUnique(b + 256 * v, 256 * p, q, b + 256 * r);
  }

  lemma QuotientUnique(v: nat, d: nat, q: nat, r: nat)
    requires d > 0 && r < d && v == d * q + r
    ensures v / d == q
  {
    assert v == q * d + r;
    DivModUnique(v, d, q, r);
    var q' := v / d;
    assert d * q' == d * q;
    assert (q' - q) * d == 0;
  }

  // ----- One call, in place

  class Vcpu {
    var regs: Regs
    const mmioBuf: array<Byte>
    var pendingMmioRead: Option<Load>
    var pendingAdvancePc: bool
    var budget: nat

    constructor (initial: Regs)
      ensures mmioBuf.Length == 8 && fresh(mmioBuf)
      ensures View() == State(initial, seq(8, _ => 0), None, false)
    {
      regs := initial;
      mmioBuf := new Byte[8](_ => 0);
      pendingMmioRead := None;
      pendingAdvancePc := false;
      budget := 0;
      new;
      assert mmioBuf[..] == seq(8, _ => 0);
    }

    ghost function View(): State
      requires mmioBuf.Length == 8
      reads this, mmioBuf
    {
      State(regs, mmioBuf[..], pendingMmioRead, pendingAdvancePc)
    }

    /** Any hypervisor call: it succeeds while the budget lasts. */
    method HvCall() returns (ok: bool)
      modifies this`budget
      ensures ok == (old(budget) > 0)
      ensures budget == if ok then old(budget) - 1 else 0
    {
      ok := budget > 0;
      if ok {
        budget := budget - 1;
      }
    }

    method ReadReg(r: nat) returns (ok: bool, v: Word)
      requires r < 32
      modifies this`budget
      ensures ok == (old(budget) > 0) && budget == (if ok then old(budget) - 1 else 0)
      ensures ok ==> v == regs[r]
    {
      ok := HvCall();
      v := if ok then regs[r] else 0;
    }

    method WriteReg(r: nat, v: Word) returns (ok: bool)
      requires r < 32
      modifies this`budget, this`regs
      ensures ok == (old(budget) > 0) && budget == (if ok then old(budget) - 1 else 0)
      ensures regs == if ok then old(regs)[r := v] else old(regs)
    {
      ok := HvCall();
      if ok {
        regs := regs[r := v];
      }
    }

    method Enter(irq: bool) returns (ok: bool)
      requires mmioBuf.Length == 8 && View().Valid()
      modifies this
      ensures View() == Prologue(old(View()), irq, old(budget)).0
      ensures ok == Prologue(old(View()), irq, old(budget)).1.Some?
      ensures ok ==> budget == Prologue(old(View()), irq, old(budget)).1.value
    {
      var load := pendingMmioRead;
      pendingMmioRead := None;
      if load.Some? && load.value.srt < 31 {
        ok := WriteReg(load.value.srt, Loaded(mmioBuf[..], load.value));
        if !ok {
          return;
        }
      }
      if pendingAdvancePc {
        var pc: Word;
        ok, pc := ReadReg(PC);
        if !ok {
          return;
        }
        ok := WriteReg(PC, (pc + 4) % WORD);
        if !ok {
          return;
        }
        pendingAdvancePc := false;
      }
      if irq {
        ok := HvCall();
        if !ok {
          return;
        }
      }
      ok := HvCall();
    }

    method Run(irq: bool, calls: nat, guest: Guest, timer: Timer) returns (r: Outcome)
      requires mmioBuf.Length == 8 && View().Valid()
      modifies this, mmioBuf
      ensures (View(), r) == Call(old(View()), Input(irq, calls, old(mmioBuf[..]), guest, timer))
    {
      budget := calls;
      var ok := Enter(irq);
      if !ok {
        return Failed;
      }
      regs := guest.regs;
      if guest.reason == 1 {
        r := HandleException(guest, timer);
      } else if guest.reason == 0 {
        r := Exited(Canceled);
      } else if guest.reason == 2 {
        r := Exited(VtimerActivated);
      } else {
        ok := HvCall();
        r := if ok then Panicked else Failed;
      }
    }

    method HandleException(guest: Guest, timer: Timer) returns (r: Outcome)
      requires mmioBuf.Length == 8 && guest.reason == 1
      modifies this, mmioBuf
      ensures (View(), r) == Handle(old(View()), guest, timer, old(budget))
    {
      var ec := ExceptionClass(guest.syndrome);
      if ec == EC_HVC {
        r := Hvc();
      } else if ec == EC_SMC {
        pendingAdvancePc := true;
        r := Exited(SecureMonitorCall);
      } else if ec == EC_SYSREG {
        var rt := Field(guest.syndrome, 32, 32);
        if guest.syndrome % 2 == 1 && rt < 31 {
          var ok := WriteReg(rt, 0);
          if !ok {
            return Failed;
          }
        }
        pendingAdvancePc := true;
        r := Exited(SystemRegister);
      } else if ec == EC_DATAABORT {
        r := DataAbort(guest);
      } else if ec == EC_BKPT {
        r := Exited(Breakpoint);
      } else if ec == EC_WFX {
        r := Wfx(timer);
      } else {
        r := Panicked;
      }
    }

    method Hvc() returns (r: Outcome)
      requires mmioBuf.Length == 8
      modifies this
      ensures (View(), r) == HandleHvc(old(View()), old(budget))
    {
      var ok, x0 := ReadReg(0);
      if !ok {
        return Failed;
      }
      if x0 == 0x8400_0000 || x0 == 0x8400_0006 {
        ok := WriteReg(0, 2);
        return if ok then Exited(HypervisorCall) else Failed;
      } else if x0 == 0x8400_0008 || x0 == 0x8400_0009 {
        return Exited(Shutdown);
      } else if x0 == 0xc400_0003 {
        var ok1, mpidr := ReadReg(1);
        var ok2, entry := ReadReg(2);
        var ok3, context := ReadReg(3);
        if !(ok1 && ok2 && ok3) {
          return Failed;
        }
        ok := WriteReg(0, 0);
        return if ok then Exited(CpuOn(mpidr, entry, context)) else Failed;
      }
      return Exited(HypervisorCall);
    }

    method CopyToBuffer(data: seq<Byte>)
      requires |data| <= mmioBuf.Length
      modifies mmioBuf
      ensures mmioBuf[..] == data + old(mmioBuf[..])[|data|..]
    {
      forall i | 0 <= i < |data| {
        mmioBuf[i] := data[i];
      }
    }

    method DataAbort(guest: Guest) returns (r: Outcome)
      requires mmioBuf.Length == 8
      modifies this, mmioBuf
      ensures (View(), r) == HandleDataAbort(old(View()), guest, old(budget))
    {
      var len, srt := AccessLen(guest.syndrome), AccessReg(guest.syndrome);
      pendingAdvancePc := true;
      if IsWrite(guest.syndrome) {
        var val: Word := 0;
        if srt < 31 {
          var ok: bool;
          ok, val := ReadReg(srt);
          if !ok {
            return Failed;
          }
        }
        if len == 2 {
          return Panicked;
        }
        var data := ToLe(val % Power(len), len);
        CopyToBuffer(data);
        assert mmioBuf[..len] == data;
        return Exited(MmioWrite(guest.pa, mmioBuf[..len]));
      }
      pendingMmioRead := Some(Load(guest.pa, len, srt));
      return Exited(MmioRead(guest.pa, len));
    }

    method Wfx(timer: Timer) returns (r: Outcome)
      requires mmioBuf.Length == 8
      modifies this
      ensures (View(), r) == HandleWfx(old(View()), timer, old(budget))
    {
      var ok := HvCall();
      if !ok {
        return Failed;
      }
      pendingAdvancePc := true;
      if timer.ctl % 2 == 0 || (timer.ctl / 2) % 2 == 1 {
        return Exited(WaitForEvent);
      }
      ok := HvCall();
      if !ok {
        return Failed;
      }
      if timer.now > timer.cval {
        return Exited(WaitForEventExpired);
      }
      return Exited(WaitForEventTimeout(Timeout(timer)));
    }
  }

  // ----- Over whole runs

  /** The exits after which the instruction must not be executed again. */
  ghost predicate Emulated(g: Guest) {
    g.reason == 1 && ExceptionClass(g.syndrome) in {EC_SMC, EC_SYSREG, EC_DATAABORT, EC_WFX}
  }

  ghost predicate IsLoad(g: Guest) {
    g.reason == 1 && ExceptionClass(g.syndrome) == EC_DATAABORT && !IsWrite(g.syndrome)
  }

  ghost predicate IsStore(g: Guest) {
    g.reason == 1 && ExceptionClass(g.syndrome) == EC_DATAABORT && IsWrite(g.syndrome)
  }

  ghost function LoadOf(g: Guest): Load {
    Load(g.pa, AccessLen(g.syndrome), AccessReg(g.syndrome))
  }

  /** How many hypervisor calls a call makes up to and including the entry. */
  ghost function Cost(s: State, irq: bool): nat {
    (if s.load.Some? && s.load.value.srt != 31 then 1 else 0) + (if s.advance then 2 else 0) + (if irq then 2 else 1)
  }

  /** How many of them are left to succeed once the guest has run. */
  ghost function Left(s: State, i: Input): nat
    requires Cost(s, i.irq) <= i.budget
  {
    i.budget - Cost(s, i.irq)
  }

  /** The guest is entered exactly if the calls up to there succeed. */
  lemma EntersExactly(s: State, i: Input)
    requires s.Valid()
    ensures Entry(s, i).Some? <==> Cost(s, i.irq) <= i.budget
    ensures Entry(s, i).Some? ==> Prologue(s.(buf := i.buf), i.irq, i.budget).1 == Some(Left(s, i))
  {
    hide Power, FromLe, ToLe;
  }

  /** A trapped read or a wait whose first hypervisor call fails: nothing was done for the guest. */
  ghost predicate NotHandled(g: Guest, left: nat) {
    && left == 0 && g.reason == 1
    && (|| ExceptionClass(g.syndrome) == EC_WFX
        || (ExceptionClass(g.syndrome) == EC_SYSREG && g.syndrome % 2 == 1 && Field(g.syndrome, 32, 32) < 31))
  }

  /** What any entry leaves to be done, whether or not its handler then fails. */
  lemma EntryOwes(s: State, i: Input)
    requires s.Valid() && Entry(s, i).Some?
    ensures Cost(s, i.irq) <= i.budget
    ensures Call(s, i).0.advance == (Emulated(i.guest) && !NotHandled(i.guest, Left(s, i)))
    ensures Call(s, i).0.load == if IsLoad(i.guest) then Some(LoadOf(i.guest)) else None
    ensures Call(s, i).0.regs[PC] == i.guest.regs[PC]
  {
    hide Power, FromLe, ToLe;
  }

  /** Where the guest is to continue: PC, with the advance that is still owed. */
  ghost function Resumption(s: State): int {
    (s.regs[PC] + if s.advance then 4 else 0) % WORD
  }

  /** The state before call `n`. */
  ghost function StateAt(s: State, inputs: seq<Input>, n: nat): (r: State)
    requires s.Valid() && n <= |inputs|
    ensures r.Valid()
  {
    if n == 0 then s else Call(StateAt(s, inputs, n - 1), inputs[n - 1]).0
  }

  /** An exit handled without error owes an advance exactly if the instruction was emulated. */
  lemma ExitOwes(s: State, i: Input)
    requires s.Valid() && Call(s, i).1.Exited?
    ensures Entry(s, i).Some?
    ensures Call(s, i).0.advance == Emulated(i.guest)
    ensures Call(s, i).0.load == if IsLoad(i.guest) then Some(LoadOf(i.guest)) else None
    ensures Call(s, i).0.regs[PC] == i.guest.regs[PC]
  {
    hide Power, FromLe, ToLe;
  }

  /** A call that fails before entering the guest changes nothing about where it resumes. */
  lemma FailureKeepsResumption(s: State, i: Input)
    requires s.Valid() && Entry(s, i).None?
    ensures Call(s, i).1 == Failed && Resumption(Call(s, i).0) == Resumption(s)
  {
    hide Power, FromLe, ToLe;
  }

  lemma EntryResumes(s: State, i: Input)
    requires s.Valid() && Entry(s, i).Some?
    ensures Entry(s, i).value[PC] == Resumption(s)
  {
    hide Power, FromLe, ToLe;
  }

  lemma {:induction false} FailuresKeepResumption(s: State, inputs: seq<Input>, m: nat, n: nat)
    requires s.Valid() && m <= n <= |inputs|
    requires forall k :: m <= k < n ==> Entry(StateAt(s, inputs, k), inputs[k]).None?
    ensures Resumption(StateAt(s, inputs, n)) == Resumption(StateAt(s, inputs, m))
    decreases n - m
  {
    hide Call, Entry;
    if m == n {
    } else {
      FailuresKeepResumption(s, inputs, m, n - 1);
      assert Entry(StateAt(s, inputs, n - 1), inputs[n - 1]).None?;
      FailureKeepsResumption(StateAt(s, inputs, n - 1), inputs[n - 1]);
    }
  }

  lemma StateAfter(s: State, inputs: seq<Input>, n: nat)
    requires s.Valid() && n < |inputs|
    ensures StateAt(s, inputs, n + 1) == Call(StateAt(s, inputs, n), inputs[n]).0
  {
  }

  /** How far the guest is to go on from where it exited. */
  ghost function Advance(s: State, i: Input): nat
    requires Cost(s, i.irq) <= i.budget
  {
    if Emulated(i.guest) && !NotHandled(i.guest, Left(s, i)) then 4 else 0
  }

  lemma EntryAdvances(s: State, i: Input)
    requires s.Valid() && Entry(s, i).Some?
    ensures Cost(s, i.irq) <= i.budget
    ensures Resumption(Call(s, i).0) == (i.guest.regs[PC] + Advance(s, i)) % WORD
  {
    hide Call, Entry, Cost, Emulated, NotHandled, Left;
    EntryOwes(s, i);
  }

  /**
   Between two entries the program counter moves by 4 exactly once if the exit was
   emulated, and not at all otherwise, however many calls in between fail. The exception
   is an exit that was not handled: its instruction is executed again.
   */
  lemma PcAdvancesOnce(s: State, inputs: seq<Input>, m: nat, n: nat)
    requires s.Valid() && m < n < |inputs|
    requires Entry(StateAt(s, inputs, m), inputs[m]).Some?
    requires forall k :: m < k < n ==> Entry(StateAt(s, inputs, k), inputs[k]).None?
    requires Entry(StateAt(s, inputs, n), inputs[n]).Some?
    ensures Cost(StateAt(s, inputs, m), inputs[m].irq) <= inputs[m].budget
    ensures
      var left, advance := inputs[m].guest.regs[PC], Advance(StateAt(s, inputs, m), inputs[m]);
      Entry(StateAt(s, inputs, n), inputs[n]).value[PC] == (left + advance) % WORD
  {
    hide Call, Entry, Cost, Advance, Resumption, StateAt;
    StateAfter(s, inputs, m);
    EntryAdvances(StateAt(s, inputs, m), inputs[m]);
    FailuresKeepResumption(s, inputs, m + 1, n);
    EntryResumes(StateAt(s, inputs, n), inputs[n]);
  }

  /** The registers that the part before the entry leaves, whether or not the guest is entered. */
  ghost function Prepared(s: State, i: Input): Regs
    requires s.Valid()
  {
    Prologue(s.(buf := i.buf), i.irq, i.budget).0.regs
  }

  lemma PreparedIs(s: State, i: Input)
    requires s.Valid()
    ensures Entry(s, i).Some? ==> Entry(s, i).value == Prepared(s, i)
    ensures Entry(s, i).None? ==> Call(s, i).0.regs == Prepared(s, i) && Call(s, i).0.load == None
  {
    hide FromLe, Handle;
  }

  /** Without a load to deliver only PC can change. */
  lemma PreparedWithoutLoad(s: State, i: Input, r: nat)
    requires s.Valid() && s.load.None? && r < 31
    ensures Prepared(s, i)[r] == s.regs[r]
  {
  }

  /** The first call after a load delivers it, if its first hypervisor call succeeds. */
  lemma PreparedWithLoad(s: State, i: Input, r: nat)
    requires s.Valid() && s.load.Some? && r < 31
    ensures Prepared(s, i)[r] ==
            if s.load.value.srt == r && i.budget > 0 then FromLe(i.buf[..s.load.value.len]) else s.regs[r]
  {
    hide FromLe;
  }

  lemma {:induction false} FailuresKeepRegisters(s: State, inputs: seq<Input>, m: nat, n: nat, r: nat)
    requires s.Valid() && m <= n < |inputs| && r < 31 && StateAt(s, inputs, m).load.None?
    requires forall k :: m <= k < n ==> Entry(StateAt(s, inputs, k), inputs[k]).None?
    ensures Prepared(StateAt(s, inputs, n), inputs[n])[r] == StateAt(s, inputs, m).regs[r]
    ensures StateAt(s, inputs, n).load.None? && StateAt(s, inputs, n).regs[r] == StateAt(s, inputs, m).regs[r]
    decreases n - m
  {
    hide Call, Entry, Prepared;
    if m == n {
    } else {
      FailuresKeepRegisters(s, inputs, m, n - 1, r);
      var before := StateAt(s, inputs, n - 1);
      assert Entry(before, inputs[n - 1]).None?;
      PreparedIs(before, inputs[n - 1]);
    }
    PreparedWithoutLoad(StateAt(s, inputs, n), inputs[n], r);
  }

  /**
   The guest re-enters with the registers its exit left, except PC and the register of a
   load. That register holds the buffer, zero-extended, unless the write of it failed in
   the call right after the exit: the load is not tried again. Register 31 discards it.
   */
  lemma LoadIsDelivered(s: State, inputs: seq<Input>, m: nat, n: nat, r: nat)
    requires s.Valid() && m < n < |inputs| && r < 31
    requires Entry(StateAt(s, inputs, m), inputs[m]).Some?
    requires forall k :: m < k < n ==> Entry(StateAt(s, inputs, k), inputs[k]).None?
    requires Entry(StateAt(s, inputs, n), inputs[n]).Some?
    ensures
      var left := StateAt(s, inputs, m + 1).regs;
      var g, next := inputs[m].guest, inputs[m + 1];
      Entry(StateAt(s, inputs, n), inputs[n]).value[r] ==
        if IsLoad(g) && r == AccessReg(g.syndrome) && next.budget > 0 then FromLe(next.buf[..AccessLen(g.syndrome)])
        else left[r]
  {
    hide Call, Entry, IsLoad, AccessReg, AccessLen, FromLe, Prepared;
    EntryOwes(StateAt(s, inputs, m), inputs[m]);
    var after, next := StateAt(s, inputs, m + 1), inputs[m + 1];
    if after.load.Some? {
      PreparedWithLoad(after, next, r);
    } else {
      PreparedWithoutLoad(after, next, r);
    }
    PreparedIs(after, next);
    if m + 1 < n {
      assert Entry(after, next).None?;
      FailuresKeepRegisters(s, inputs, m + 2, n, r);
    }
    PreparedIs(StateAt(s, inputs, n), inputs[n]);
  }

  /** A load is delivered at most once: after any call it is gone unless that call's exit is a new one. */
  lemma LoadIsForgotten(s: State, i: Input)
    requires s.Valid()
    ensures Call(s, i).0.load.Some? ==> Entry(s, i).Some? && IsLoad(i.guest)
  {
    hide Power, FromLe, ToLe;
  }

  lemma StoredBytes(s: State, g: Guest, budget: nat)
    requires HandleDataAbort(s, g, budget).1.Exited? && IsWrite(g.syndrome)
    ensures
      var (s', r) := HandleDataAbort(s, g, budget);
      var len := AccessLen(g.syndrome);
      && (len == 1 || len == 4 || len == 8)
      && r.exit.MmioWrite? && |r.exit.data| == len && r.exit.data == s'.buf[..len]
      && FromLe(r.exit.data) == Stored(s, g.syndrome) % Power(len)
  {
    hide FromLe, ToLe, Power;
    var len := AccessLen(g.syndrome);
    var v := Stored(s, g.syndrome) % Power(len);
    LeRoundTrip(v, len);
    DivModUnique(v, Power(len), 0, v);
  }

  /** A store of 1, 4 or 8 bytes hands out exactly the low bytes of its source register. */
  lemma StoreHandsOutLowBytes(s: State, i: Input)
    requires s.Valid() && Call(s, i).1.Exited? && Call(s, i).1.exit.MmioWrite?
    ensures
      var len, srt := AccessLen(i.guest.syndrome), AccessReg(i.guest.syndrome);
      var data := Call(s, i).1.exit.data;
      && (len == 1 || len == 4 || len == 8)
      && |data| == len && data == Call(s, i).0.buf[..len]
      && FromLe(data) == (if srt < 31 then i.guest.regs[srt] else 0) % Power(len)
  {
    hide FromLe, Power, HandleDataAbort, Prologue, AccessLen;
    var (s1, left) := Prologue(s.(buf := i.buf), i.irq, i.budget);
    var s2 := s1.(regs := i.guest.regs);
    if !IsWrite(i.guest.syndrome) {
      LoadsDoNotStore(s2, i.guest, left.value);
    }
    StoredBytes(s2, i.guest, left.value);
  }

  lemma LoadsDoNotStore(s: State, g: Guest, budget: nat)
    requires !IsWrite(g.syndrome)
    ensures HandleDataAbort(s, g, budget).1 == Exited(MmioRead(g.pa, AccessLen(g.syndrome)))
  {
  }

  /**
   Every store that traps is skipped, whatever happens to it: it is handed out exactly when
   its width is supported and its source register could be read.
   */
  lemma StoreIsHandedOutExactly(s: State, i: Input)
    requires s.Valid() && Entry(s, i).Some? && IsStore(i.guest)
    ensures Cost(s, i.irq) <= i.budget && Call(s, i).0.advance
    ensures
      var r, len := Call(s, i).1, AccessLen(i.guest.syndrome);
      var readable := AccessReg(i.guest.syndrome) == 31 || Left(s, i) > 0;
      && (r.Exited? <==> readable && len != 2)
      && (r.Exited? ==> r.exit.MmioWrite?)
      && (r.Panicked? <==> readable && len == 2)
      && (!r.Exited? ==> Call(s, i).0.buf == i.buf)
  {
    hide Power, FromLe, ToLe;
  }

  // ----- Which exit is taken, from the bits of the syndrome

  /** Bits 26 to 31. */
  ghost function Class(g: Guest): int {
    (g.syndrome / 0x400_0000) % 64
  }

  /** The exits that are decided by the exit reason and the exception class alone. */
  lemma PlainExits(s: State, i: Input)
    requires s.Valid() && Entry(s, i).Some?
    ensures
      var r, g := Call(s, i).1, i.guest;
      && (r == Exited(Canceled) <==> g.reason == 0)
      && (r == Exited(VtimerActivated) <==> g.reason == 2)
      && (r == Exited(Breakpoint) <==> g.reason == 1 && Class(g) == 0x3c)
      && (r == Exited(SecureMonitorCall) <==> g.reason == 1 && Class(g) == 0x17)
  {
    hide Power, FromLe, ToLe, Prologue;
  }

  /** When a call panics: a reason, a class or a width of store that is not supported. */
  lemma PanicsExactly(s: State, i: Input)
    requires s.Valid() && Entry(s, i).Some?
    ensures Cost(s, i.irq) <= i.budget
    ensures
      var g := i.guest;
      Call(s, i).1 == Panicked <==>
        || (g.reason > 2 && Left(s, i) > 0)
        || (g.reason == 1 && Class(g) !in {0x01, 0x16, 0x17, 0x18, 0x24, 0x3c})
        || (IsStore(g) && AccessLen(g.syndrome) == 2 && (AccessReg(g.syndrome) == 31 || Left(s, i) > 0))
  {
    hide Power, FromLe, ToLe, Prologue, AccessLen, IsWrite;
    EntersExactly(s, i);
  }

  /** The syndrome of a data abort: what is read of it, and the bits in between. */
  ghost function AbortSyndrome(top: nat, isv: nat, sas: nat, sse: nat, srt: nat, mid: nat, wnr: nat, low: nat): nat {
    top * 0x1_0000_0000 + 0x24 * 0x400_0000 + isv * 0x100_0000 + sas * 0x40_0000 + sse * 0x20_0000
    + srt * 0x1_0000 + mid * 128 + wnr * 64 + low
  }

  /** Width and register of a data abort, and whether it is a store, are read from their own bits. */
  lemma AbortFields(top: nat, isv: nat, sas: nat, sse: nat, srt: nat, mid: nat, wnr: nat, low: nat)
    requires isv < 4 && sas < 4 && sse < 2 && srt < 32 && mid < 512 && wnr < 2 && low < 64
    requires AbortSyndrome(top, isv, sas, sse, srt, mid, wnr, low) < WORD
    ensures
      var x := AbortSyndrome(top, isv, sas, sse, srt, mid, wnr, low);
      && ExceptionClass(x) == 0x24 && AccessReg(x) == srt && (IsWrite(x) <==> wnr == 1)
      && AccessLen(x) == if sas == 0 then 1 else if sas == 1 then 2 else if sas == 2 then 4 else 8
  {
    var x := AbortSyndrome(top, isv, sas, sse, srt, mid, wnr, low);
    var below16 := mid * 128 + wnr * 64 + low;
    var below22 := sse * 0x20_0000 + srt * 0x1_0000 + below16;
    var below26 := isv * 0x100_0000 + sas * 0x40_0000 + below22;
    var above26 := top * 64 + 0x24;
    var above22 := above26 * 16 + isv * 4 + sas;
    FieldIs(x, 0x400_0000, 64, top, 0x24, below26);
    FieldIs(x, 0x40_0000, 4, above26 * 4 + isv, sas, below22);
    FieldIs(x, 0x1_0000, 32, above22 * 2 + sse, srt, below16);
    FieldIs(x, 64, 2, ((above22 * 2 + sse) * 32 + srt) * 512 + mid, wnr, low);
  }

  /** The bits of a number between those above and those below. */
  lemma FieldIs(x: Word, shift: nat, width: nat, above: nat, v: nat, below: nat)
    requires shift > 0 && v < width && below < shift && x == (above * width + v) * shift + below
    ensures Field(x, shift, width) == v
  {
    assert x == shift * (above * width + v) + below;
    QuotientUnique(x, shift, above * width + v, below);
    DivModUnique(above * width + v, width, above, v);
  }

  /** A load that traps asks for its address and width. */
  lemma LoadExits(s: State, i: Input)
    requires s.Valid() && Entry(s, i).Some?
    ensures
      var r, g := Call(s, i).1, i.guest;
      && (IsLoad(g) ==> r == Exited(MmioRead(g.pa, AccessLen(g.syndrome))))
      && (r.Exited? && r.exit.MmioRead? ==> IsLoad(g))
      && (r.Exited? && r.exit.MmioWrite? ==> IsStore(g) && r.exit.addr == g.pa)
      && (IsLoad(g) || IsStore(g) <==> g.reason == 1 && Class(g) == 0x24)
  {
    hide Power, FromLe, ToLe, Prologue, AccessLen, AccessReg, IsWrite;
  }

  /** A trapped system-register access: bit 0 says it reads, bits 5 to 9 which register gets the zero. */
  ghost predicate ZeroesRegister(g: Guest, r: nat) {
    g.reason == 1 && Class(g) == 0x18 && g.syndrome % 2 == 1 && (g.syndrome / 32) % 32 == r
  }

  lemma SystemRegisterExits(s: State, i: Input)
    requires s.Valid() && Entry(s, i).Some?
    ensures Cost(s, i.irq) <= i.budget
    ensures Call(s, i).1 == Exited(SystemRegister) <==>
            && i.guest.reason == 1 && Class(i.guest) == 0x18
            && (Left(s, i) > 0 || forall r :: 0 <= r < 31 ==> !ZeroesRegister(i.guest, r))
  {
    hide Power, FromLe, ToLe, Prologue;
    EntersExactly(s, i);
    var rt := (i.guest.syndrome / 32) % 32;
    assert rt < 31 ==> (ZeroesRegister(i.guest, rt) <==>
                        i.guest.reason == 1 && Class(i.guest) == 0x18 && i.guest.syndrome % 2 == 1);
  }

  // ----- Hypervisor calls and waits

  ghost predicate IsHvc(g: Guest) {
    g.reason == 1 && Class(g) == 0x16
  }

  /**
   A hypervisor call by its number in X0: starting a CPU hands out X1, X2 and X3, two
   numbers shut down, and any other returns to the guest. It fails only if the hypervisor does.
   */
  lemma HvcExits(s: State, i: Input)
    requires s.Valid() && Entry(s, i).Some? && IsHvc(i.guest)
    ensures Cost(s, i.irq) <= i.budget
    ensures
      var r, regs, left := Call(s, i).1, i.guest.regs, Left(s, i);
      && (r == Exited(CpuOn(regs[1], regs[2], regs[3])) <==> regs[0] == 0xc400_0003 && left >= 5)
      && (r == Exited(Shutdown) <==> regs[0] in {0x8400_0008, 0x8400_0009} && left >= 1)
      && (r == Exited(HypervisorCall) <==>
            && regs[0] !in {0x8400_0008, 0x8400_0009, 0xc400_0003}
            && left >= (if regs[0] in {0x8400_0000, 0x8400_0006} then 2 else 1))
      && (r == Failed || r == Exited(CpuOn(regs[1], regs[2], regs[3])) || r == Exited(Shutdown)
          || r == Exited(HypervisorCall))
  {
    hide Power, FromLe, ToLe, Prologue, Cost;
    EntersExactly(s, i);
  }

  /** What a hypervisor call finds in X0 when it returns: not supported, success, or its own number. */
  ghost function HvcAnswer(x0: Word): Word {
    if x0 == 0x8400_0000 || x0 == 0x8400_0006 then 2 else if x0 == 0xc400_0003 then 0 else x0
  }

  /** The registers an exit leaves: those of the guest, but for the answer to a call and a trapped read. */
  lemma ExitLeaves(s: State, i: Input, r: nat)
    requires s.Valid() && Call(s, i).1.Exited? && r < 32
    ensures Call(s, i).0.regs[r] ==
            if IsHvc(i.guest) && r == 0 then HvcAnswer(i.guest.regs[0])
            else if r < 31 && ZeroesRegister(i.guest, r) then 0
            else i.guest.regs[r]
  {
    hide Power, FromLe, ToLe, Prologue;
  }

  /**
   Every register the guest finds when it is entered again after an exit: a hypervisor call
   has its answer in X0, a trapped read a zero, a load what the device model put into the
   buffer, unless it was lost; nothing else has changed.
   */
  lemma RegistersAtEntry(s: State, inputs: seq<Input>, m: nat, n: nat, r: nat)
    requires s.Valid() && m < n < |inputs| && r < 31
    requires Call(StateAt(s, inputs, m), inputs[m]).1.Exited?
    requires forall k :: m < k < n ==> Entry(StateAt(s, inputs, k), inputs[k]).None?
    requires Entry(StateAt(s, inputs, n), inputs[n]).Some?
    ensures
      var g, next := inputs[m].guest, inputs[m + 1];
      Entry(StateAt(s, inputs, n), inputs[n]).value[r] ==
        if IsHvc(g) && r == 0 then HvcAnswer(g.regs[0])
        else if ZeroesRegister(g, r) then 0
        else if IsLoad(g) && r == AccessReg(g.syndrome) && next.budget > 0 then
          FromLe(next.buf[..AccessLen(g.syndrome)])
        else g.regs[r]
  {
    hide Call, Entry, Class, HvcAnswer, AccessReg, AccessLen, FromLe, StateAt, IsWrite;
    StateAfter(s, inputs, m);
    ExitOwes(StateAt(s, inputs, m), inputs[m]);
    ExitLeaves(StateAt(s, inputs, m), inputs[m], r);
    LoadIsDelivered(s, inputs, m, n, r);
    assert ExceptionClass(inputs[m].guest.syndrome) == Class(inputs[m].guest) by { ClassIs(inputs[m].guest); }
  }

  lemma ClassIs(g: Guest)
    ensures ExceptionClass(g.syndrome) == Class(g)
  {
  }

  /** A hypervisor call returns with its answer in X0 and every other register as it was. */
  lemma HvcReturns(s: State, inputs: seq<Input>, m: nat, n: nat, r: nat)
    requires s.Valid() && m < n < |inputs| && r < 32
    requires Call(StateAt(s, inputs, m), inputs[m]).1.Exited? && IsHvc(inputs[m].guest)
    requires forall k :: m < k < n ==> Entry(StateAt(s, inputs, k), inputs[k]).None?
    requires Entry(StateAt(s, inputs, n), inputs[n]).Some?
    ensures
      var before := inputs[m].guest.regs;
      Entry(StateAt(s, inputs, n), inputs[n]).value[r] == if r == 0 then HvcAnswer(before[0]) else before[r]
  {
    hide Call, Entry, NotHandled, Left, Cost, HvcAnswer, StateAt, IsWrite, FromLe, AccessReg, AccessLen;
    ExitOwes(StateAt(s, inputs, m), inputs[m]);
    if r == PC {
      PcAdvancesOnce(s, inputs, m, n);
    } else {
      RegistersAtEntry(s, inputs, m, n, r);
    }
  }

  /** The timer is enabled and not masked. */
  ghost predicate TimerArmed(t: Timer) {
    t.ctl % 2 == 1 && (t.ctl / 2) % 2 == 0
  }

  ghost predicate IsWait(g: Guest) {
    g.reason == 1 && Class(g) == 0x01
  }

  /** Which exit a wait takes. It fails only if a timer register it needs cannot be read. */
  lemma WaitExits(s: State, i: Input)
    requires s.Valid() && Entry(s, i).Some? && IsWait(i.guest)
    ensures Cost(s, i.irq) <= i.budget
    ensures
      var r, t, left := Call(s, i).1, i.timer, Left(s, i);
      && (r == Exited(WaitForEvent) <==> !TimerArmed(t) && left >= 1)
      && (r == Exited(WaitForEventExpired) <==> TimerArmed(t) && t.now > t.cval && left >= 2)
      && (r.Exited? && r.exit.WaitForEventTimeout? <==> TimerArmed(t) && t.now <= t.cval && left >= 2)
      && (r == Failed <==> left < if TimerArmed(t) then 2 else 1)
  {
    hide Power, FromLe, ToLe, Prologue, Timeout, Cost;
    EntersExactly(s, i);
  }

  /**
   A timeout is 41 nanoseconds for each of the 24 million ticks in a second. It never
   outlasts the timer, whether or not the product wraps.
   */
  lemma WaitNeverOversleeps(s: State, i: Input)
    requires s.Valid() && Call(s, i).1.Exited? && Call(s, i).1.exit.WaitForEventTimeout?
    ensures i.timer.now <= i.timer.cval
    ensures
      var nanos, ticks := Call(s, i).1.exit.nanos, i.timer.cval - i.timer.now;
      && (ticks * 41 < WORD ==> nanos == ticks * 41)
      && nanos * 24_000_000 <= ticks * 1_000_000_000
  {
    hide Power, FromLe, ToLe, Prologue, Timeout;
    TimeoutIsShort(i.timer);
  }

  lemma TimeoutIsShort(t: Timer)
    requires t.now <= t.cval
    ensures Timeout(t) <= (t.cval - t.now) * 41
    ensures (t.cval - t.now) * 41 < WORD ==> Timeout(t) == (t.cval - t.now) * 41
  {
    assert NANOS_PER_SECOND / TIMER_FREQUENCY == 41;
  }

  // ----- Inputs that show what can be lost, whatever the registers

  const NO_BYTES: Buffer := [0, 0, 0, 0, 0, 0, 0, 0]
  const SEVEN: Buffer := [7, 0, 0, 0, 0, 0, 0, 0]

  ghost function NewState(regs: Regs): State {
    State(regs, NO_BYTES, None, false)
  }

  /** A call with `budget` hypervisor calls, in which the guest exits with `syndrome`. */
  ghost function Trap(regs: Regs, budget: nat, buf: Buffer, syndrome: Word): Input {
    Input(false, budget, buf, Guest(regs, 1, syndrome, 0), Timer(0, 0, 0))
  }

  /** A load of 7 into X1: the write of X1 fails, and the guest goes on with what X1 held before. */
  lemma LoadCanBeLost(regs: Regs)
    ensures
      var s, i := NewState(regs), Trap(regs, 1, NO_BYTES, 0x9081_0000);
      var s', i' := Call(s, i).0, Trap(regs, 0, SEVEN, 0);
      var s'', i'' := Call(s', i').0, Trap(regs, 3, SEVEN, 0);
      && Call(s, i).1 == Exited(MmioRead(0, 4))
      && Entry(s', i').None?
      && Entry(s'', i'').Some?
      && Entry(s'', i'').value[1] == regs[1]
      && Entry(s'', i'').value[PC] == (regs[PC] + 4) % WORD
  {
    hide FromLe, ToLe, Power;
  }

  /** A store of X1 that cannot be read: nothing is handed out, and the guest goes on behind it. */
  lemma StoreCanBeLost(regs: Regs)
    ensures
      var s, i, i' := NewState(regs), Trap(regs, 1, NO_BYTES, 0x9081_0040), Trap(regs, 3, NO_BYTES, 0);
      && IsStore(i.guest) && Call(s, i).1 == Failed
      && Entry(Call(s, i).0, i').Some?
      && Entry(Call(s, i).0, i').value[PC] == (regs[PC] + 4) % WORD
  {
    hide FromLe, ToLe, Power;
  }

  /** A wait whose timer cannot be read: the guest waits again at the same place. */
  lemma WaitCanBeRepeated(regs: Regs)
    ensures
      var s, i, i' := NewState(regs), Trap(regs, 1, NO_BYTES, 0x400_0000), Trap(regs, 1, NO_BYTES, 0);
      && Emulated(i.guest) && Call(s, i).1 == Failed
      && Entry(Call(s, i).0, i').Some?
      && Entry(Call(s, i).0, i').value[PC] == regs[PC]
  {
    hide FromLe, ToLe, Power;
  }
}
