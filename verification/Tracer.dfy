/** The event loop of the example tracer (examples/pink-simple-strace.c) as a state machine over
    the tracee's stops. */
module Tracer {
  import opened CTypes
  import opened Registers

  const EVENT_EXEC := 4
  const SIGTRAP := 5
  const SYSGOOD := 0x80

  /** What happens to the tracee between two turns of the loop. `abi` is the ABI it is in. */
  datatype Stop =
    | SyscallStop(abi: Abi)
    | SignalStop(sig: nat, abi: Abi)
    | EventStop(event: nat, abi: Abi)
    | Exited(code: nat)
    | Killed(sig: nat)

  predicate WellFormed(s: Stop) {
    match s
    case SyscallStop(_) => true
    case SignalStop(sig, _) => 0 < sig < 128
    case EventStop(event, _) => 0 < event < 0x1_0000
    case Exited(code) => code < 256
    case Killed(sig) => 0 < sig < 127
  }

  /** The status word that waitpid(2) delivers for it. */
  function Status(s: Stop): (w: nat) {
    match s
    case SyscallStop(_) => 256 * (SIGTRAP + SYSGOOD) + 0x7f
    case SignalStop(sig, _) => 256 * sig + 0x7f
    case EventStop(event, _) => 0x1_0000 * event + 256 * SIGTRAP + 0x7f
    case Exited(code) => 256 * code
    case Killed(sig) => sig
  }

  // The macros of <sys/wait.h>, and pink_event_decide.
  predicate WIfExited(status: nat) {
    status % 128 == 0
  }

  predicate WIfSignaled(status: nat) {
    0 < status % 128 < 127
  }

  function WExitStatus(status: nat): nat {
    status / 256 % 256
  }

  function WTermSig(status: nat): nat {
    status % 128
  }

  function EventDecide(status: nat): nat {
    status / 0x1_0000
  }

  /** The status word tells the kinds of stops apart, except that a signal looks like a system
      call to pink_event_decide. */
  lemma StatusDecoded(s: Stop)
    requires WellFormed(s)
    ensures WIfExited(Status(s)) <==> s.Exited?
    ensures WIfSignaled(Status(s)) <==> s.Killed?
    ensures s.Exited? ==> WExitStatus(Status(s)) == s.code
    ensures s.Killed? ==> WTermSig(Status(s)) == s.sig
    ensures s.EventStop? ==> EventDecide(Status(s)) == s.event
    ensures s.SyscallStop? || s.SignalStop? ==> EventDecide(Status(s)) == 0
  {
  }

  /** What the loop observes in one turn: an error of PTRACE_SYSCALL or waitpid, or a stop, at which
      the registers can be read or cannot. */
  datatype Turn = ResumeFailed(err: nat) | WaitFailed(err: nat) | Stopped(stop: Stop, readable: bool)

  predicate Goes(t: Turn) {
    t.Stopped? && !t.stop.Exited? && !t.stop.Killed?
  }

  // ---------------------------------------------------------------------------
  // The tracee
  // ---------------------------------------------------------------------------

  /** Whether the tracee is inside a system call after a run that started outside one: each
      system call stop is an entry or an exit, in turn. */
  function InSyscall(run: seq<Turn>): (b: bool) {
    if run == [] then false
    else
      var last := run[|run| - 1];
      if last.Stopped? && last.stop.SyscallStop? then !InSyscall(run[..|run| - 1]) else InSyscall(run[..|run| - 1])
  }

  /** Signal deliveries in a run. */
  function Signals(run: seq<Turn>): (n: nat) {
    if run == [] then 0
    else
      var last := run[|run| - 1];
      Signals(run[..|run| - 1]) + if last.Stopped? && last.stop.SignalStop? then 1 else 0
  }

  /** The ABI at the last stop at which the tracer looks at the registers and can read them. */
  function AbiSeen(run: seq<Turn>, start: Abi): (abi: Abi) {
    if run == [] then start
    else
      var last := run[|run| - 1];
      if last.Stopped? && last.readable && (last.stop.SyscallStop? || last.stop.SignalStop?
                                            || (last.stop.EventStop? && last.stop.event == EVENT_EXEC))
      then last.stop.abi else AbiSeen(run[..|run| - 1], start)
  }

  // ---------------------------------------------------------------------------
  // The tracer
  // ---------------------------------------------------------------------------

  /** A run of stops of a living tracee. */
  ghost predicate Lives(run: seq<Turn>) {
    forall i :: 0 <= i < |run| ==> Goes(run[i]) && WellFormed(run[i].stop)
  }

  /** The tracer's idea of the phase: it changes with every stop whose event number is 0. */
  function Tracked(run: seq<Turn>): (b: bool) {
    if run == [] then false
    else
      var last := run[|run| - 1];
      if last.Stopped? && EventDecide(Status(last.stop)) == 0 then !Tracked(run[..|run| - 1])
      else Tracked(run[..|run| - 1])
  }

  /** The tracer is in step with the tracee exactly after an even number of signals: each signal
      delivery is taken for a system call stop. */
  lemma {:induction false} InStepIff(run: seq<Turn>)
    requires Lives(run)
    ensures Tracked(run) == InSyscall(run) <==> Signals(run) % 2 == 0
    decreases |run|
  {
    if run != [] {
      StatusDecoded(run[|run| - 1].stop);
      InStepIff(run[..|run| - 1]);
    }
  }

  /** struct process, with the number of system call entries and exits that were handled. */
  class Process {
    var insyscall: bool
    var abi: Abi
    ghost var entries: nat
    ghost var exits: nat

    constructor (start: Abi)
      ensures !insyscall && abi == start && entries == exits == 0
    {
      insyscall, abi, entries, exits := false, start, 0, 0;
    }

    /** Entries and exits alternate, beginning with an entry. */
    ghost predicate Balanced()
      reads this
    {
      entries == exits + if insyscall then 1 else 0
    }

    /** process_update: the registers as they are at this stop. If they cannot be read, an error is
        printed and the ABI stays what it was. */
    method Update(now: Abi, readable: bool)
      modifies `abi
      ensures abi == if readable then now else old(abi)
    {
      if readable {
        abi := now;
      }
    }

    /** handle_syscall, without the decoding of arguments. */
    method HandleSyscall()
      requires Balanced()
      modifies `insyscall, `entries, `exits
      ensures Balanced() && insyscall == !old(insyscall)
    {
      if insyscall {
        insyscall := false;
        exits := exits + 1;
      } else {
        insyscall := true;
        entries := entries + 1;
      }
    }

    /** The part of the loop that looks at a stop; the tracee lives on. */
    method HandleStop(s: Stop, readable: bool)
      requires WellFormed(s) && !s.Exited? && !s.Killed? && Balanced()
      modifies this
      ensures Balanced()
      ensures insyscall == if s.SyscallStop? || s.SignalStop? then !old(insyscall) else old(insyscall)
      ensures abi == if !readable || (s.EventStop? && s.event != EVENT_EXEC) then old(abi) else s.abi
    {
      StatusDecoded(s);
      var event := EventDecide(Status(s));
      if event == 0 {
        Update(s.abi, readable);
        HandleSyscall();
      } else if event == EVENT_EXEC {
        Update(s.abi, readable);
      }
    }

    /** The loop over the turns of a run. It ends with the first turn that is not a stop of a
        living tracee; `done` is the number of turns before that, or all there are. */
    method Loop(run: seq<Turn>) returns (exitCode: int, done: nat)
      requires forall t :: t in run && t.Stopped? ==> WellFormed(t.stop)
      requires !insyscall && entries == exits == 0
      modifies this
      ensures Balanced() && done <= |run|
      ensures forall i :: 0 <= i < done ==> Goes(run[i])
      ensures done < |run| ==> !Goes(run[done]) && exitCode == ExitCode(run[done])
      ensures insyscall == Tracked(run[..done])
      ensures abi == AbiSeen(run[..done], old(abi))
    {
      exitCode, done := 0, 0;
      while done < |run|
        invariant Balanced() && done <= |run|
        invariant forall i :: 0 <= i < done ==> Goes(run[i])
        invariant insyscall == Tracked(run[..done])
        invariant abi == AbiSeen(run[..done], old(abi))
      {
        var t := run[done];
        assert t in run;
        if t.ResumeFailed? {
          exitCode := if t.err == ESRCH then 0 else 1;
          return;
        }
        if t.WaitFailed? {
          exitCode := if t.err == ECHILD then 0 else 1;
          return;
        }
        var status := Status(t.stop);
        StatusDecoded(t.stop);
        if WIfExited(status) {
          exitCode := WExitStatus(status);
          return;
        } else if WIfSignaled(status) {
          exitCode := 128 + WTermSig(status);
          return;
        }
        HandleStop(t.stop, t.readable);
        assert run[..done + 1][..done] == run[..done];
        done := done + 1;
      }
    }
  }

  /** The exit code of the tracer for the turn that ends the loop. */
  function ExitCode(t: Turn): (c: int)
    requires !Goes(t)
  {
    match t
    case ResumeFailed(err) => if err == ESRCH then 0 else 1
    case WaitFailed(err) => if err == ECHILD then 0 else 1
    case Stopped(Exited(code), _) => code
    case Stopped(Killed(sig), _) => 128 + sig
    case _ => 0
  }

  /** It is in step all along a run exactly when no signal is delivered in it. */
  lemma {:induction false} AlwaysInStepIff(run: seq<Turn>)
    requires Lives(run)
    ensures (forall n :: 0 <= n <= |run| ==> Tracked(run[..n]) == InSyscall(run[..n])) <==> Signals(run) == 0
    decreases |run|
  {
    assert run[..|run|] == run;
    InStepIff(run);
    if run != [] {
      var front := run[..|run| - 1];
      AlwaysInStepIff(front);
      assert forall n :: 0 <= n <= |front| ==> run[..n] == front[..n];
    }
  }

  /** Events of any kind, a new program included, leave both phases alone. */
  lemma EventsKeepPhase(run: seq<Turn>, event: nat, abi: Abi, readable: bool)
    requires 0 < event < 0x1_0000
    ensures Tracked(run + [Stopped(EventStop(event, abi), readable)]) == Tracked(run)
    ensures InSyscall(run + [Stopped(EventStop(event, abi), readable)]) == InSyscall(run)
  {
    var longer := run + [Stopped(EventStop(event, abi), readable)];
    assert longer[..|longer| - 1] == run;
    StatusDecoded(EventStop(event, abi));
  }
}
