/**
 * The forward-only progress tracker: each step moves Pending -> Running -> Complete/Failed or
 * Pending -> Skipped, and the reported progress, the fraction of finished steps, never drops.
 * Times are integer nanoseconds given by the caller; None stands for Go's zero time.
 */
module ProgressCore {
  import opened Wrappers

  datatype StepStatus = Pending | Running | Complete | Failed | Skipped

  datatype TrackedStep = TrackedStep(
    name: string, status: StepStatus, message: string, startTime: Option<int>, endTime: Option<int>)

  datatype ProgressStats = ProgressStats(
    total: nat, completed: nat, failed: nat, skipped: nat, running: nat, pending: nat,
    progress: real, elapsed: int, eta: int)

  predicate IsTerminal(s: StepStatus) { s == Complete || s == Failed || s == Skipped }

  /** How far along its life a status is: Pending, then Running, then a terminal state. */
  function Rank(s: StepStatus): nat
  {
    match s
    case Pending => 0
    case Running => 1
    case _ => 2
  }

  /** canTransition: the forward-only transition table. */
  function CanTransition(from: StepStatus, to: StepStatus): (r: bool)
    ensures r ==> Rank(from) < Rank(to)
    ensures IsTerminal(from) ==> !r
    ensures r ==> (from == Pending <==> to == Running || to == Skipped)
  {
    match from
    case Pending => to == Running || to == Skipped
    case Running => to == Complete || to == Failed
    case _ => false
  }

  /** A step counts towards progress once it is Complete or Skipped. */
  predicate IsDone(s: StepStatus) { s == Complete || s == Skipped }

  function PendingStep(name: string): TrackedStep { TrackedStep(name, Pending, "", None, None) }

  /** The step after SetStep accepted the change to `status` at time `now`. */
  function Advance(s: TrackedStep, status: StepStatus, message: string, now: int): (r: TrackedStep)
    ensures r.name == s.name && r.status == status && r.message == message
    ensures r.startTime != s.startTime <==> status == Running && s.startTime == None
    ensures r.startTime != s.startTime ==> r.startTime == Some(now)
    ensures IsTerminal(status) ==> r.endTime == Some(now)
    ensures !IsTerminal(status) ==> r.endTime == s.endTime
  {
    var started := if status == Running && s.startTime.None? then Some(now) else s.startTime;
    var ended := if IsTerminal(status) then Some(now) else s.endTime;
    TrackedStep(s.name, status, message, started, ended)
  }

  function CountOf(steps: seq<TrackedStep>, st: StepStatus): nat
  {
    if steps == [] then 0
    else CountOf(steps[..|steps| - 1], st) + (if steps[|steps| - 1].status == st then 1 else 0)
  }

  function DoneCount(steps: seq<TrackedStep>): (n: nat)
    ensures n <= |steps|
  {
    if steps == [] then 0
    else DoneCount(steps[..|steps| - 1]) + (if IsDone(steps[|steps| - 1].status) then 1 else 0)
  }

  /** The completion ratio: finished steps over all steps, 0 when there are none. */
  function DoneFraction(steps: seq<TrackedStep>): (r: real)
    ensures 0.0 <= r <= 1.0
    ensures r == 0.0 <==> DoneCount(steps) == 0
    ensures r == 1.0 <==> |steps| > 0 && DoneCount(steps) == |steps|
  {
    if |steps| == 0 then 0.0 else DoneCount(steps) as real / |steps| as real
  }

  /** How long a step took, or has been running at `now`. */
  function Duration(s: TrackedStep, now: int): int
  {
    match s.startTime
    case None => 0
    case Some(start) => match s.endTime { case None => now - start case Some(end) => end - start }
  }

  function CompletedDuration(steps: seq<TrackedStep>, now: int): int
  {
    if steps == [] then 0
    else
      var last := steps[|steps| - 1];
      CompletedDuration(steps[..|steps| - 1], now) + (if last.status == Complete then Duration(last, now) else 0)
  }

  /** Go's integer division, which truncates toward zero. */
  function GoDiv(a: int, b: int): int
    requires b > 0
  {
    if a >= 0 then a / b else -((-a) / b)
  }

  /** The estimate: the average completed step time for every step not yet finished. */
  function Eta(steps: seq<TrackedStep>, now: int): int
  {
    var completed := CountOf(steps, Complete);
    var pending := CountOf(steps, Pending);
    if completed > 0 && pending > 0
    then GoDiv(CompletedDuration(steps, now), completed) * (pending + CountOf(steps, Running))
    else 0
  }

  // ---------------------------------------------------------------- Lemmas about the counts

  /** Every step has exactly one status, so the five counts add up to the number of steps. */
  lemma {:induction false} CountsSumToTotal(steps: seq<TrackedStep>)
    ensures CountOf(steps, Pending) + CountOf(steps, Running) + CountOf(steps, Complete)
          + CountOf(steps, Failed) + CountOf(steps, Skipped) == |steps|
  {
    if steps != [] { CountsSumToTotal(steps[..|steps| - 1]); }
  }

  /** The finished count is the Complete count plus the Skipped count. */
  lemma {:induction false} DoneIsCompletePlusSkipped(steps: seq<TrackedStep>)
    ensures DoneCount(steps) == CountOf(steps, Complete) + CountOf(steps, Skipped)
  {
    if steps != [] { DoneIsCompletePlusSkipped(steps[..|steps| - 1]); }
  }

  /** Replacing one step changes the finished count by that step's contribution only. */
  lemma {:induction false} DoneCountUpdate(steps: seq<TrackedStep>, i: nat, x: TrackedStep)
    requires i < |steps|
    ensures DoneCount(steps[i := x]) + (if IsDone(steps[i].status) then 1 else 0)
         == DoneCount(steps) + (if IsDone(x.status) then 1 else 0)
  {
    var n := |steps| - 1;
    if i < n {
      DoneCountUpdate(steps[..n], i, x);
      assert steps[i := x][..n] == steps[..n][i := x];
    } else {
      assert steps[i := x][..n] == steps[..n];
    }
  }

  /** An accepted transition never lowers the completion ratio. */
  lemma TransitionNeverLowersProgress(steps: seq<TrackedStep>, i: nat, status: StepStatus, message: string, now: int)
    requires i < |steps| && CanTransition(steps[i].status, status)
    ensures DoneFraction(steps[i := Advance(steps[i], status, message, now)]) >= DoneFraction(steps)
  {
    var next := steps[i := Advance(steps[i], status, message, now)];
    DoneCountUpdate(steps, i, Advance(steps[i], status, message, now));
    assert |next| == |steps| > 0;
    RatioMonotone(DoneCount(steps), DoneCount(next), |steps|);
  }

  /** A larger count over the same total is a larger ratio. */
  lemma RatioMonotone(a: nat, b: nat, n: nat)
    requires a <= b && n > 0
    ensures a as real / n as real <= b as real / n as real
  {
    assert b as real / n as real - a as real / n as real == (b - a) as real / n as real;
  }

  lemma {:induction false} AllPendingNothingDone(steps: seq<TrackedStep>)
    requires forall i :: 0 <= i < |steps| ==> steps[i].status == Pending
    ensures DoneCount(steps) == 0
  {
    if steps != [] { AllPendingNothingDone(steps[..|steps| - 1]); }
  }

  /** When no step is Pending, Running or Failed, every step counts and the ratio is 1. */
  lemma {:induction false} FinishedWithoutFailureIsFull(steps: seq<TrackedStep>)
    requires forall i :: 0 <= i < |steps| ==> IsDone(steps[i].status)
    ensures DoneCount(steps) == |steps|
  {
    if steps != [] { FinishedWithoutFailureIsFull(steps[..|steps| - 1]); }
  }

  // ---------------------------------------------------------------- The tracker

  class ProgressTracker {
    var steps: seq<TrackedStep>
    var minProgress: real
    var startTime: int
    var lastUpdateTime: Option<int>

    /** The recorded progress is the completion ratio of the steps. */
    ghost predicate Valid()
      reads this
    {
      minProgress == DoneFraction(steps)
    }

    /** NewProgressTracker: one Pending step per name, progress 0, started at `now`. */
    constructor (stepNames: seq<string>, now: int)
      ensures steps == seq(|stepNames|, i requires 0 <= i < |stepNames| => PendingStep(stepNames[i]))
      ensures minProgress == 0.0 && startTime == now && lastUpdateTime == None
      ensures Valid()
    {
      var s: seq<TrackedStep> := [];
      var i := 0;
      while i < |stepNames|
        invariant 0 <= i <= |stepNames|
        invariant s == seq(i, k requires 0 <= k < i => PendingStep(stepNames[k]))
      {
        s := s + [PendingStep(stepNames[i])];
        i := i + 1;
      }
      steps := s;
      minProgress := 0.0;
      startTime := now;
      lastUpdateTime := None;
      AllPendingNothingDone(s);
    }

    /** calculateProgress. */
    method CalculateProgress() returns (p: real)
      ensures p == DoneFraction(steps)
    {
      if |steps| == 0 {
        return 0.0;
      }
      var completed := 0;
      var i := 0;
      while i < |steps|
        invariant 0 <= i <= |steps|
        invariant completed == DoneCount(steps[..i])
      {
        assert steps[..i + 1][..i] == steps[..i];
        if steps[i].status == Complete || steps[i].status == Skipped {
          completed := completed + 1;
        }
        i := i + 1;
      }
      assert steps[..i] == steps;
      p := completed as real / |steps| as real;
    }

    /**
     * SetStep: refuse an index out of range or a transition the table forbids, changing nothing;
     * otherwise update the step, its times and the last update time, and raise the minimum progress.
     */
    method SetStep(index: int, status: StepStatus, message: string, now: int) returns (ok: bool)
      modifies this
      ensures ok <==> 0 <= index < |old(steps)| && CanTransition(old(steps)[index].status, status)
      ensures !ok ==> steps == old(steps) && minProgress == old(minProgress)
                      && startTime == old(startTime) && lastUpdateTime == old(lastUpdateTime)
      ensures ok ==> steps == old(steps)[index := Advance(old(steps)[index], status, message, now)]
                     && lastUpdateTime == Some(now) && startTime == old(startTime)
                     && minProgress == (if DoneFraction(steps) > old(minProgress) then DoneFraction(steps) else old(minProgress))
      ensures minProgress >= old(minProgress)
      ensures old(Valid()) ==> Valid()
    {
      if index < 0 || index >= |steps| {
        return false;
      }
      var current := steps[index].status;
      if !CanTransition(current, status) {
        return false;
      }
      ghost var before := steps;
      var step := steps[index];
      var started := step.startTime;
      if status == Running && step.startTime.None? {
        started := Some(now);
      }
      var ended := step.endTime;
      if status == Complete || status == Failed || status == Skipped {
        ended := Some(now);
      }
      steps := steps[index := TrackedStep(step.name, status, message, started, ended)];
      lastUpdateTime := Some(now);
      TransitionNeverLowersProgress(before, index, status, message, now);
      var newProgress := CalculateProgress();
      if newProgress > minProgress {
        minProgress := newProgress;
      }
      ok := true;
    }

    /** Progress: the minimum progress, which is the completion ratio while the tracker is valid. */
    method Progress() returns (p: real)
      ensures p == minProgress
      ensures Valid() ==> p == DoneFraction(steps)
      ensures 0.0 <= minProgress <= 1.0 ==> 0.0 <= p <= 1.0
    {
      p := minProgress;
    }

    /** CurrentStep: the first Running step and its index, or -1 and nothing. */
    method CurrentStep() returns (index: int, step: Option<TrackedStep>)
      ensures index == -1 <==> step == None
      ensures step == None <==> forall i :: 0 <= i < |steps| ==> steps[i].status != Running
      ensures index >= 0 ==> index < |steps| && steps[index].status == Running && step == Some(steps[index])
                             && forall j :: 0 <= j < index ==> steps[j].status != Running
    {
      var i := 0;
      while i < |steps|
        invariant 0 <= i <= |steps|
        invariant forall j :: 0 <= j < i ==> steps[j].status != Running
      {
        if steps[i].status == Running {
          return i, Some(steps[i]);
        }
        i := i + 1;
      }
      return -1, None;
    }

    /** Stats: the per-status counts, the progress, the elapsed time and the estimate at `now`. */
    method Stats(now: int) returns (stats: ProgressStats)
      ensures stats.total == |steps| && stats.progress == minProgress && stats.elapsed == now - startTime
      ensures stats.completed == CountOf(steps, Complete) && stats.failed == CountOf(steps, Failed)
      ensures stats.skipped == CountOf(steps, Skipped) && stats.running == CountOf(steps, Running)
      ensures stats.pending == CountOf(steps, Pending)
      ensures stats.completed + stats.failed + stats.skipped + stats.running + stats.pending == stats.total
      ensures stats.eta == Eta(steps, now)
    {
      var completed, failed, skipped, running, pending := 0, 0, 0, 0, 0;
      var completedDuration := 0;
      var i := 0;
      while i < |steps|
        invariant 0 <= i <= |steps|
        invariant completed == CountOf(steps[..i], Complete) && failed == CountOf(steps[..i], Failed)
        invariant skipped == CountOf(steps[..i], Skipped) && running == CountOf(steps[..i], Running)
        invariant pending == CountOf(steps[..i], Pending)
        invariant completedDuration == CompletedDuration(steps[..i], now)
      {
        assert steps[..i + 1][..i] == steps[..i];
        match steps[i].status {
          case Complete =>
            completed := completed + 1;
            completedDuration := completedDuration + Duration(steps[i], now);
          case Failed => failed := failed + 1;
          case Skipped => skipped := skipped + 1;
          case Running => running := running + 1;
          case Pending => pending := pending + 1;
        }
        i := i + 1;
      }
      assert steps[..i] == steps;
      CountsSumToTotal(steps);
      var eta := 0;
      if completed > 0 && pending > 0 {
        var avgStepTime := GoDiv(completedDuration, completed);
        eta := avgStepTime * (pending + running);
      }
      stats := ProgressStats(|steps|, completed, failed, skipped, running, pending, minProgress, now - startTime, eta);
    }

    /** IsComplete: no step is Pending or Running. */
    method IsComplete() returns (r: bool)
      ensures r <==> forall i :: 0 <= i < |steps| ==> IsTerminal(steps[i].status)
    {
      var i := 0;
      while i < |steps|
        invariant 0 <= i <= |steps|
        invariant forall j :: 0 <= j < i ==> IsTerminal(steps[j].status)
      {
        if steps[i].status == Pending || steps[i].status == Running {
          return false;
        }
        i := i + 1;
      }
      return true;
    }

    /** HasFailed: some step is Failed. */
    method HasFailed() returns (r: bool)
      ensures r <==> exists i :: 0 <= i < |steps| && steps[i].status == Failed
    {
      var i := 0;
      while i < |steps|
        invariant 0 <= i <= |steps|
        invariant forall j :: 0 <= j < i ==> steps[j].status != Failed
      {
        if steps[i].status == Failed {
          return true;
        }
        i := i + 1;
      }
      return false;
    }

    /** Reset: every step back to Pending with no message or times, progress 0, restarted at `now`. */
    method Reset(now: int)
      modifies this
      ensures steps == seq(|old(steps)|, i requires 0 <= i < |old(steps)| => PendingStep(old(steps)[i].name))
      ensures minProgress == 0.0 && startTime == now && lastUpdateTime == None
      ensures Valid()
    {
      var i := 0;
      while i < |steps|
        invariant 0 <= i <= |steps| && |steps| == |old(steps)|
        invariant forall k :: 0 <= k < i ==> steps[k] == PendingStep(old(steps)[k].name)
        invariant forall k :: i <= k < |steps| ==> steps[k] == old(steps)[k]
      {
        steps := steps[i := PendingStep(steps[i].name)];
        i := i + 1;
      }
      minProgress := 0.0;
      startTime := now;
      lastUpdateTime := None;
      AllPendingNothingDone(steps);
    }
  }

  /** A finished tracker without failures reports full progress. */
  lemma CompleteWithoutFailureIsFull(steps: seq<TrackedStep>)
    requires |steps| > 0
    requires forall i :: 0 <= i < |steps| ==> IsTerminal(steps[i].status)
    requires forall i :: 0 <= i < |steps| ==> steps[i].status != Failed
    ensures DoneFraction(steps) == 1.0
  {
    FinishedWithoutFailureIsFull(steps);
  }
}
