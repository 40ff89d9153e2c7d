/** The process watchdog (src/source/remote/watchdog.rs): one admission at a time, ended in time or by
    terminating the process. Steps of callers and of the worker thread interleave in any order. */
module Watchdog {
  import opened Wrappers

  datatype Phase = Idle | Running(deadline: nat) | Expired

  /** An admission handed out, and whether it was dropped without completing. */
  datatype Admission = Admission(id: nat, deadline: nat, dropped: bool)

  datatype State = State(phase: Phase, terminated: bool, now: nat, admitted: Option<Admission>, nextId: nat)

  const START := State(Idle, false, 0, None, 0)

  datatype Event =
    | Tick(elapsed: nat)
    | Admit(timeout: nat)
    | Complete(id: nat)
    | Drop(id: nat)
    | WorkerStep

  function AfterAdmit(s: State, timeout: nat): State {
    if !s.phase.Idle? then s
    else
      var deadline := s.now + timeout;
      s.(phase := Running(deadline), admitted := Some(Admission(s.nextId, deadline, false)), nextId := s.nextId + 1)
  }

  /** Only a handle that still exists can complete; too late, or in another phase, it terminates the process. */
  function AfterComplete(s: State, a: Admission): State {
    if s.now >= a.deadline || s.phase != Running(a.deadline) then s.(phase := Expired, terminated := true)
    else s.(phase := Idle, admitted := None)
  }

  function AfterWorkerStep(s: State): State {
    match s.phase
    case Idle => s
    case Expired => s.(terminated := true)
    case Running(deadline) => if s.now >= deadline then s.(phase := Expired, terminated := true) else s
  }

  function Next(s: State, e: Event): State {
    if s.terminated then s
    else
      match e
      case Tick(elapsed) => s.(now := s.now + elapsed)
      case Admit(timeout) => AfterAdmit(s, timeout)
      case Complete(id) =>
        if s.admitted.Some? && s.admitted.value.id == id && !s.admitted.value.dropped then AfterComplete(s, s.admitted.value) else s
      case Drop(id) =>
        if s.admitted.Some? && s.admitted.value.id == id then s.(admitted := Some(s.admitted.value.(dropped := true))) else s
      case WorkerStep => AfterWorkerStep(s)
  }

  function At(es: seq<Event>, k: nat): State
    requires k <= |es|
    decreases k
  {
    if k == 0 then START else Next(At(es, k - 1), es[k - 1])
  }

  /** The shared state behind the lock, with the process's fate and clock. */
  class Supervisor {
    var phase: Phase
    var terminated: bool

    constructor ()
      ensures phase == Idle && !terminated
    {
      phase, terminated := Idle, false;
    }

    method Terminate()
      modifies this
      ensures terminated && phase == old(phase)
    {
      terminated := true;
    }

    /** The deadline of a new admission, or None when one is already running. */
    method AdmitFor(timeout: nat, now: nat) returns (r: Option<nat>)
      requires !terminated
      modifies this
      ensures !terminated
      ensures old(phase).Idle? ==> r == Some(now + timeout) && phase == Running(now + timeout)
      ensures !old(phase).Idle? ==> r == None && phase == old(phase)
    {
      if phase != Idle {
        return None;
      }
      var deadline := now + timeout;
      phase := Running(deadline);
      r := Some(deadline);
    }

    method Complete(deadline: nat, now: nat)
      requires !terminated
      modifies this
      ensures var s := AfterComplete(State(old(phase), false, now, None, 0), Admission(0, deadline, false));
        phase == s.phase && terminated == s.terminated
      ensures now < deadline && old(phase) == Running(deadline) ==> phase == Idle && !terminated
      ensures now >= deadline || old(phase) != Running(deadline) ==> phase == Expired && terminated
    {
      if now >= deadline || phase != Running(deadline) {
        phase := Expired;
        Terminate();
        return;
      }
      phase := Idle;
    }

    /** One turn of the worker's loop; the result is how long it may sleep, without limit when idle. */
    method WorkerTurn(now: nat) returns (sleep: Option<nat>)
      requires !terminated
      modifies this
      ensures var s := AfterWorkerStep(State(old(phase), false, now, None, 0)); phase == s.phase && terminated == s.terminated
      ensures terminated <==> old(phase).Expired? || (old(phase).Running? && now >= old(phase).deadline)
      ensures phase == if old(phase).Running? && now >= old(phase).deadline then Expired else old(phase)
      ensures !terminated && phase.Running? ==> sleep.Some? && now + sleep.value == phase.deadline
      ensures !terminated && phase.Idle? ==> sleep.None?
    {
      match phase
      case Idle => sleep := None;
      case Expired =>
        Terminate();
        sleep := None;
      case Running(deadline) =>
        if now >= deadline {
          phase := Expired;
          Terminate();
          sleep := None;
        } else {
          sleep := Some(deadline - now);
        }
    }
  }

  // ---- Whole runs

  ghost predicate Sound(s: State) {
    && (s.admitted.Some? ==> s.admitted.value.id < s.nextId)
    && (!s.terminated ==>
        match s.phase
        case Idle => s.admitted.None?
        case Running(deadline) => s.admitted.Some? && s.admitted.value.deadline == deadline
        case Expired => false)
  }

  lemma {:induction false} AlwaysSound(es: seq<Event>, k: nat)
    requires k <= |es|
    ensures Sound(At(es, k))
    decreases k
  {
    if k > 0 {
      AlwaysSound(es, k - 1);
    }
  }

  /** While a process lives, a running deadline ends only by its own admission completing before it. */
  lemma {:induction false} RunningEndsInTime(es: seq<Event>, k: nat)
    requires k < |es| && At(es, k).phase.Running? && !At(es, k + 1).terminated && At(es, k + 1).phase != At(es, k).phase
    ensures var s := At(es, k);
      && s.admitted.Some? && es[k] == Complete(s.admitted.value.id) && !s.admitted.value.dropped
      && s.admitted.value.deadline == s.phase.deadline && s.now < s.phase.deadline && At(es, k + 1).phase.Idle?
  {
    AlwaysSound(es, k);
  }

  /** A completion before its deadline leaves the process alive and idle, ready for the next admission. */
  lemma {:induction false} TimelyCompletionIsIdle(es: seq<Event>, k: nat)
    requires k < |es| && !At(es, k).terminated && At(es, k).admitted.Some? && !At(es, k).admitted.value.dropped
    requires es[k] == Complete(At(es, k).admitted.value.id) && At(es, k).now < At(es, k).admitted.value.deadline
    ensures At(es, k + 1).phase.Idle? && !At(es, k + 1).terminated && At(es, k + 1).admitted.None?
  {
    AlwaysSound(es, k);
  }

  /** The process is terminated only by a late step: a completion or a worker's turn at or after the deadline of the
      admission that is running. */
  lemma {:induction false} TerminatedOnlyLate(es: seq<Event>, k: nat)
    requires k < |es| && !At(es, k).terminated && At(es, k + 1).terminated
    ensures var s := At(es, k);
      && s.admitted.Some? && s.now >= s.admitted.value.deadline
      && (es[k] == Complete(s.admitted.value.id) || es[k] == WorkerStep)
  {
    AlwaysSound(es, k);
  }

  /** An admission asked for in an idle, living process is given, with its whole time ahead. */
  lemma {:induction false} IdleAdmits(es: seq<Event>, k: nat)
    requires k < |es| && es[k].Admit? && At(es, k).phase.Idle? && !At(es, k).terminated
    ensures At(es, k + 1).admitted == Some(Admission(At(es, k).nextId, At(es, k).now + es[k].timeout, false))
    ensures At(es, k + 1).phase == Running(At(es, k).now + es[k].timeout)
  {
  }

  /** A new admission is given only when no earlier one is still running, dropped or not. */
  lemma {:induction false} OneAdmissionAtATime(es: seq<Event>, k: nat)
    requires k < |es| && At(es, k + 1).nextId != At(es, k).nextId
    ensures es[k].Admit? && At(es, k).phase.Idle? && At(es, k).admitted.None? && !At(es, k).terminated
  {
    AlwaysSound(es, k);
  }

  predicate Completes(es: seq<Event>, i: nat, j: nat, id: nat)
    requires i <= j <= |es|
  {
    exists k :: i <= k < j && es[k] == Complete(id)
  }

  lemma {:induction false} StaysAdmitted(es: seq<Event>, i: nat, j: nat)
    requires i < j <= |es| && es[i].Admit? && At(es, i).phase.Idle? && !At(es, i).terminated
    requires !Completes(es, i, j, At(es, i).nextId) && !At(es, j).terminated
    ensures At(es, j).phase == At(es, i + 1).phase && At(es, j).admitted.Some? && At(es, j).admitted.value.id == At(es, i).nextId
    decreases j
  {
    if i + 1 < j {
      assert forall k | i <= k < j - 1 :: es[k] != Complete(At(es, i).nextId);
      StaysAdmitted(es, i, j - 1);
      AlwaysSound(es, j - 1);
      assert es[j - 1] != Complete(At(es, i).nextId);
    }
  }

  lemma {:induction false} TerminationIsFinal(es: seq<Event>, i: nat, j: nat)
    requires i <= j <= |es| && At(es, i).terminated
    ensures At(es, j) == At(es, i)
    decreases j
  {
    if i < j {
      TerminationIsFinal(es, i, j - 1);
    }
  }

  /** An admission that is never completed, dropped or not, is fatal: the worker's next turn at or after its
      deadline terminates the process, if it still lives, and nothing happens any more. */
  lemma {:induction false} OverdueIsFatal(es: seq<Event>, i: nat, j: nat)
    requires i < j < |es| && es[i].Admit? && At(es, i).phase.Idle? && !At(es, i).terminated
    requires !Completes(es, i, j, At(es, i).nextId)
    requires es[j] == WorkerStep && At(es, j).now >= At(es, i + 1).phase.deadline
    ensures forall m: nat | j < m <= |es| :: At(es, m) == At(es, j + 1) && At(es, m).terminated
  {
    if !At(es, j).terminated {
      StaysAdmitted(es, i, j);
    }
    forall m: nat | j < m <= |es|
      ensures At(es, m) == At(es, j + 1)
    {
      TerminationIsFinal(es, j + 1, m);
    }
  }
}
