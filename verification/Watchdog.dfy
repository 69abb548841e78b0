/** scripts/mcp_http_watchdog.py: one watchdog cycle over the persistent failure
    counter, and what any sequence of cycles does to the service. */
module Watchdog {
  import opened Wrappers

  /** The counter file: absent, not readable as a number, or a number. */
  datatype Stored = Missing | Damaged | Number(value: int)

  datatype Command = ResetFailed | Start | Restart

  datatype Probe = Healthy | Unhealthy | Broken

  /** A write goes through, is refused before the file is touched, or leaves it torn. */
  datatype Written = Done | Refused | Torn

  /** What one cycle meets: damage to the counter since the last cycle, the unit
      state (None when reading it or finding the state directory raises), the
      probe, and which commands and file operations go through. */
  datatype Cycle = Cycle(damaged: bool, state: Option<string>, probe: Probe,
                         resets: bool, starts: bool, restarts: bool,
                         unlinks: bool, readable: bool, write: Written)

  /** The counter and every lifecycle command submitted so far, accepted or not. */
  datatype Watch = Watch(counter: Stored, issued: seq<Command>)

  const BROKEN_PROBE := 3

  function Max(a: int, b: int): int { if a >= b then a else b }

  /** Consecutive failures on file; a missing or damaged file counts as none. */
  function Failures(counter: Stored): (n: nat)
    ensures counter.Number? && counter.value >= 0 ==> n == counter.value
  {
    match counter
    case Number(value) => Max(value, 0)
    case _ => 0
  }

  predicate InTransition(state: string) {
    state in {"activating", "deactivating", "reloading"}
  }

  function Recovered(w: Watch, c: Cycle): (Watch, int) {
    var reset := w.(issued := w.issued + [ResetFailed]);
    if !c.resets then (reset, BROKEN_PROBE) else
      var started := reset.(issued := reset.issued + [Start]);
      if !c.starts || !c.unlinks then (started, BROKEN_PROBE) else (started.(counter := Missing), 0)
  }

  function Counted(w: Watch, c: Cycle, threshold: int): (Watch, int) {
    if !c.readable then (w, BROKEN_PROBE) else
      var count := Failures(w.counter) + 1;
      if count >= threshold then
        if !c.unlinks then (w, BROKEN_PROBE)
        else (Watch(Missing, w.issued + [Restart]), if c.restarts then 0 else BROKEN_PROBE)
      else
        match c.write
        case Done => (w.(counter := Number(count)), 0)
        case Refused => (w, BROKEN_PROBE)
        case Torn => (w.(counter := Damaged), BROKEN_PROBE)
  }

  /** One cycle as a function of what it meets. */
  function Step(w: Watch, c: Cycle, threshold: int): (Watch, int) {
    var w := if c.damaged then w.(counter := Damaged) else w;
    if c.state.None? then (w, BROKEN_PROBE)
    else if c.state.value == "failed" then Recovered(w, c)
    else if c.state.value == "inactive" || InTransition(c.state.value) then (w, 0)
    else if c.state.value != "active" then (w, BROKEN_PROBE)
    else match c.probe
      case Broken => (w, BROKEN_PROBE)
      case Healthy => if c.unlinks then (w.(counter := Missing), 0) else (w, BROKEN_PROBE)
      case Unhealthy => Counted(w, c, threshold)
  }

  class Service {
    var counter: Stored
    var issued: seq<Command>
    const threshold: int

    constructor (threshold: int)
      ensures this.threshold == threshold && State() == Watch(Missing, [])
    {
      this.threshold := threshold;
      counter := Missing;
      issued := [];
    }

    function State(): Watch
      reads this
    {
      Watch(counter, issued)
    }

    method Submit(command: Command)
      modifies this`issued
      ensures issued == old(issued) + [command]
    {
      issued := issued + [command];
    }

    /** One watchdog cycle. */
    method Run(c: Cycle) returns (code: int)
      modifies this
      ensures (State(), code) == Step(old(State()), c, threshold)
    {
      if c.damaged {
        counter := Damaged;
      }
      if c.state.None? {
        return BROKEN_PROBE;
      }
      var state := c.state.value;
      if state == "failed" {
        Submit(ResetFailed);
        if !c.resets {
          return BROKEN_PROBE;
        }
        Submit(Start);
        if !c.starts || !c.unlinks {
          return BROKEN_PROBE;
        }
        counter := Missing;
        return 0;
      }
      if state == "inactive" || InTransition(state) {
        return 0;
      }
      if state != "active" || c.probe.Broken? {
        return BROKEN_PROBE;
      }
      if c.probe.Healthy? {
        if !c.unlinks {
          return BROKEN_PROBE;
        }
        counter := Missing;
        return 0;
      }
      code := Count(c);
    }

    /** The end of a cycle whose probe found an active unit unhealthy. */
    method Count(c: Cycle) returns (code: int)
      modifies this
      ensures (State(), code) == Counted(old(State()), c, threshold)
    {
      if !c.readable {
        return BROKEN_PROBE;
      }
      var count := Failures(counter) + 1;
      if count >= threshold {
        if !c.unlinks {
          return BROKEN_PROBE;
        }
        counter := Missing;
        Submit(Restart);
        return if c.restarts then 0 else BROKEN_PROBE;
      }
      if c.write.Refused? {
        return BROKEN_PROBE;
      }
      counter := if c.write.Done? then Number(count) else Damaged;
      code := if c.write.Done? then 0 else BROKEN_PROBE;
    }
  }

  // ---- Runs ---------------------------------------------------------------

  /** The state after the first n cycles, starting with no counter file. */
  function After(cycles: seq<Cycle>, threshold: int, n: nat): Watch
    requires n <= |cycles|
  {
    if n == 0 then Watch(Missing, []) else Step(After(cycles, threshold, n - 1), cycles[n - 1], threshold).0
  }

  /** What the n-th cycle submits. */
  function Submitted(cycles: seq<Cycle>, threshold: int, n: nat): (s: seq<Command>)
    requires n < |cycles|
  {
    var before, after := After(cycles, threshold, n).issued, After(cycles, threshold, n + 1).issued;
    if |before| <= |after| then after[|before|..] else []
  }

  predicate ActiveUnhealthy(c: Cycle) { c.state == Some("active") && c.probe.Unhealthy? }

  predicate ActiveHealthy(c: Cycle) { c.state == Some("active") && c.probe.Healthy? }

  /** The unit was found failed and both recovery commands were accepted. */
  predicate RecoveredUnit(c: Cycle) { c.state == Some("failed") && c.resets && c.starts }

  /** Unhealthy probes of the active unit in the first n cycles, since the last
      healthy probe, recovery or restart attempt among them. */
  function Streak(cycles: seq<Cycle>, threshold: int, n: nat): nat
    requires n <= |cycles|
  {
    if n == 0 then 0
    else if ClearsStreak(cycles[n - 1], Submitted(cycles, threshold, n - 1)) then 0
    else Streak(cycles, threshold, n - 1) + if ActiveUnhealthy(cycles[n - 1]) then 1 else 0
  }

  /** The counter stands for no more failures than the streak holds. */
  predicate Bounded(cycles: seq<Cycle>, threshold: int, n: nat)
    requires n <= |cycles|
  {
    Failures(After(cycles, threshold, n).counter) <= Streak(cycles, threshold, n)
  }

  /** A healthy probe or a recovery that should clear a positive counter and cannot. */
  predicate MissedClear(w: Watch, c: Cycle) {
    (ActiveHealthy(c) || RecoveredUnit(c)) && !c.unlinks && OnFile(w, c) > 0
  }

  predicate Misses(cycles: seq<Cycle>, threshold: int, i: nat)
    requires i < |cycles|
  {
    MissedClear(After(cycles, threshold, i), cycles[i])
  }

  /** No cycle from m to n misses a clear. */
  ghost predicate AllCleared(cycles: seq<Cycle>, threshold: int, m: nat, n: nat)
    requires n <= |cycles|
  {
    forall i :: m <= i < n ==> !Misses(cycles, threshold, i)
  }

  /** The commands one cycle submits. */
  function Commands(w: Watch, c: Cycle, threshold: int): seq<Command> {
    if c.state == Some("failed") then if c.resets then [ResetFailed, Start] else [ResetFailed]
    else if ActiveUnhealthy(c) && c.readable && c.unlinks && OnFile(w, c) + 1 >= threshold then [Restart]
    else []
  }

  /** The failures on file once any damage of this cycle is done. */
  function OnFile(w: Watch, c: Cycle): nat {
    if c.damaged then 0 else Failures(w.counter)
  }

  predicate ClearsStreak(c: Cycle, submitted: seq<Command>) {
    ActiveHealthy(c) || RecoveredUnit(c) || Restart in submitted
  }

  lemma StepCommands(w: Watch, c: Cycle, threshold: int)
    ensures Step(w, c, threshold).0.issued == w.issued + Commands(w, c, threshold)
  {
  }

  /** What one cycle can do to the counter. */
  lemma StepCounter(w: Watch, c: Cycle, threshold: int)
    ensures var counter := Step(w, c, threshold).0.counter; var submitted := Commands(w, c, threshold);
      && Failures(counter) <= OnFile(w, c) + (if ActiveUnhealthy(c) then 1 else 0)
      && (ClearsStreak(c, submitted) && c.unlinks ==> counter == Missing)
      && (submitted == [Restart] ==> counter == Missing && OnFile(w, c) + 1 >= threshold)
      && (counter.Number? ==> counter == w.counter || 0 < counter.value < threshold)
      && (!c.damaged && c.unlinks && c.readable && c.write.Done? && !ClearsStreak(c, submitted) ==>
            Failures(counter) == OnFile(w, c) + if ActiveUnhealthy(c) then 1 else 0)
  {
  }

  /** What the counter is after one cycle, in every case. */
  lemma StepCounterExactly(w: Watch, c: Cycle, threshold: int)
    ensures var counter := Step(w, c, threshold).0.counter;
      var counted := ActiveUnhealthy(c) && c.readable && OnFile(w, c) + 1 < threshold;
      counter ==
        if c.unlinks && ClearsStreak(c, Commands(w, c, threshold)) then Missing
        else if counted && c.write == Done then Number(OnFile(w, c) + 1)
        else if c.damaged || (counted && c.write == Torn) then Damaged
        else w.counter
  {
  }

  /** The restart, or below the threshold the new count, went through. */
  predicate Acted(w: Watch, c: Cycle, threshold: int) {
    if OnFile(w, c) + 1 >= threshold then c.unlinks && c.restarts else c.write == Done
  }

  /** The cycle had something to do or nothing, and all of it went through. */
  predicate WentThrough(w: Watch, c: Cycle, threshold: int) {
    && c.state.Some?
    && (c.state.value == "failed" ==> c.resets && c.starts && c.unlinks)
    && c.state.value in {"failed", "inactive", "activating", "deactivating", "reloading", "active"}
    && (c.state.value == "active" ==>
          && !c.probe.Broken?
          && (c.probe.Healthy? ==> c.unlinks)
          && (c.probe.Unhealthy? ==> c.readable && Acted(w, c, threshold)))
  }

  /** The exit code is 0 when it did and 3 when anything failed. */
  lemma StepExit(w: Watch, c: Cycle, threshold: int)
    ensures Step(w, c, threshold).1 == if WentThrough(w, c, threshold) then 0 else 3
  {
  }

  lemma SubmittedIs(cycles: seq<Cycle>, threshold: int, n: nat)
    requires n < |cycles|
    ensures var w := After(cycles, threshold, n);
      && After(cycles, threshold, n + 1) == Step(w, cycles[n], threshold).0
      && After(cycles, threshold, n + 1).issued == w.issued + Submitted(cycles, threshold, n)
      && Submitted(cycles, threshold, n) == Commands(w, cycles[n], threshold)
  {
    hide Step, Commands;
    StepCommands(After(cycles, threshold, n), cycles[n], threshold);
  }

  lemma StreakNext(cycles: seq<Cycle>, threshold: int, n: nat)
    requires n < |cycles|
    ensures Streak(cycles, threshold, n + 1)
         == if ClearsStreak(cycles[n], Submitted(cycles, threshold, n)) then 0
            else Streak(cycles, threshold, n) + if ActiveUnhealthy(cycles[n]) then 1 else 0
  {
    hide Submitted, ActiveUnhealthy, ActiveHealthy, RecoveredUnit;
  }

  lemma StartsClean(cycles: seq<Cycle>, threshold: int)
    ensures After(cycles, threshold, 0) == Watch(Missing, []) && Streak(cycles, threshold, 0) == 0
  {
  }

  lemma {:induction false} CounterBelowThreshold(cycles: seq<Cycle>, threshold: int, n: nat)
    requires n <= |cycles| && threshold >= 1
    ensures var counter := After(cycles, threshold, n).counter; counter.Number? ==> 0 < counter.value < threshold
    decreases n
  {
    hide Step, Commands, After, ClearsStreak, ActiveUnhealthy;
    if n > 0 {
      CounterBelowThreshold(cycles, threshold, n - 1);
      SubmittedIs(cycles, threshold, n - 1);
      StepCounter(After(cycles, threshold, n - 1), cycles[n - 1], threshold);
    } else {
      StartsClean(cycles, threshold);
    }
  }

  /** A healthy probe or recovery whose clearing fails leaves the count standing. */
  lemma StepUncleared(w: Watch, c: Cycle, threshold: int)
    requires (ActiveHealthy(c) || RecoveredUnit(c)) && !c.unlinks
    ensures Failures(Step(w, c, threshold).0.counter) == OnFile(w, c)
    ensures Restart !in Commands(w, c, threshold) && ClearsStreak(c, Commands(w, c, threshold))
  {
  }

  /** One cycle keeps the bound exactly when it does not miss a clear. */
  lemma BoundedNextIff(cycles: seq<Cycle>, threshold: int, n: nat)
    requires n < |cycles| && Bounded(cycles, threshold, n)
    ensures Bounded(cycles, threshold, n + 1) <==> !Misses(cycles, threshold, n)
  {
    hide Step, After, Submitted, Streak, ActiveUnhealthy, ActiveHealthy, RecoveredUnit;
    var w, c := After(cycles, threshold, n), cycles[n];
    SubmittedIs(cycles, threshold, n);
    StepCounter(w, c, threshold);
    StreakNext(cycles, threshold, n);
    if (ActiveHealthy(c) || RecoveredUnit(c)) && !c.unlinks { StepUncleared(w, c, threshold); }
  }

  lemma {:induction false} BoundedFrom(cycles: seq<Cycle>, threshold: int, m: nat, n: nat)
    requires m <= n <= |cycles| && Bounded(cycles, threshold, m) && AllCleared(cycles, threshold, m, n)
    ensures Bounded(cycles, threshold, n)
    decreases n
  {
    hide Bounded, Misses;
    if m < n {
      BoundedFrom(cycles, threshold, m, n - 1);
      BoundedNextIff(cycles, threshold, n - 1);
    }
  }

  /** As long as no clear is missed the counter never exceeds the streak of
      failures it stands for; it never reaches the threshold in any run. */
  lemma CounterBounded(cycles: seq<Cycle>, threshold: int, n: nat)
    requires n <= |cycles| && threshold >= 1 && AllCleared(cycles, threshold, 0, n)
    ensures var counter := After(cycles, threshold, n).counter;
      && Failures(counter) <= Streak(cycles, threshold, n)
      && (counter.Number? ==> 0 < counter.value < threshold)
  {
    CounterBelowThreshold(cycles, threshold, n);
    StartsClean(cycles, threshold);
    BoundedFrom(cycles, threshold, 0, n);
  }

  /** A restart submitted under the bound follows at least `threshold` unhealthy
      probes of the active unit since the last healthy probe, recovery or
      restart attempt. */
  lemma BoundedJustifies(cycles: seq<Cycle>, threshold: int, n: nat)
    requires n < |cycles| && Bounded(cycles, threshold, n) && Restart in Submitted(cycles, threshold, n)
    ensures ActiveUnhealthy(cycles[n]) && Streak(cycles, threshold, n) + 1 >= threshold
  {
    hide After, Submitted, Streak, Step;
    SubmittedIs(cycles, threshold, n);
  }

  /** Every restart of a run that misses no clear before it is so justified. */
  lemma RestartJustified(cycles: seq<Cycle>, threshold: int, n: nat)
    requires n < |cycles| && threshold >= 1 && AllCleared(cycles, threshold, 0, n)
    requires Restart in Submitted(cycles, threshold, n)
    ensures ActiveUnhealthy(cycles[n]) && Streak(cycles, threshold, n) + 1 >= threshold
  {
    CounterBounded(cycles, threshold, n);
    BoundedJustifies(cycles, threshold, n);
  }

  // ---- The bound is what justification needs --------------------------------

  ghost predicate Clearing(future: seq<Cycle>) {
    forall c :: c in future ==> c.unlinks
  }

  predicate Justified(cycles: seq<Cycle>, threshold: int, n: nat)
    requires n < |cycles|
  {
    Restart in Submitted(cycles, threshold, n) ==> Streak(cycles, threshold, n) + 1 >= threshold
  }

  /** Whatever follows, if it can clear the counter, restarts only when justified. */
  ghost predicate FuturesJustified(past: seq<Cycle>, threshold: int) {
    forall future: seq<Cycle>, n: nat | Clearing(future) && |past| <= n < |past + future| ::
      Justified(past + future, threshold, n)
  }

  lemma {:induction false} SamePast(past: seq<Cycle>, future: seq<Cycle>, threshold: int, n: nat)
    requires n <= |past|
    ensures After(past + future, threshold, n) == After(past, threshold, n)
    ensures Streak(past + future, threshold, n) == Streak(past, threshold, n)
    decreases n
  {
    hide Step;
    if n > 0 {
      SamePast(past, future, threshold, n - 1);
      assert (past + future)[n - 1] == past[n - 1];
      assert Submitted(past + future, threshold, n - 1) == Submitted(past, threshold, n - 1);
    }
  }

  /** An unhealthy probe of the active unit, with nothing else going wrong. */
  const FAILURE := Cycle(false, Some("active"), Unhealthy, true, true, true, true, true, Done)

  /** Failures after failures: counter and streak climb together until the restart. */
  lemma {:induction false} Climb(past: seq<Cycle>, future: seq<Cycle>, threshold: int, j: nat)
    requires forall c :: c in future ==> c == FAILURE
    requires j <= |future| && Failures(After(past, threshold, |past|).counter) + j < threshold
    ensures Failures(After(past + future, threshold, |past| + j).counter)
         == Failures(After(past, threshold, |past|).counter) + j
    ensures Streak(past + future, threshold, |past| + j) == Streak(past, threshold, |past|) + j
    decreases j
  {
    hide After, Streak, Submitted, Step;
    var cycles := past + future;
    if j == 0 {
      SamePast(past, future, threshold, |past|);
    } else {
      Climb(past, future, threshold, j - 1);
      var n := |past| + j - 1;
      assert cycles[n] == future[j - 1] && future[j - 1] in future;
      SubmittedIs(cycles, threshold, n);
      StepCounter(After(cycles, threshold, n), FAILURE, threshold);
      StreakNext(cycles, threshold, n);
    }
  }

  /** A run's past is safe for every clearing future exactly when its counter is bounded by its streak. */
  lemma FuturesJustifiedIff(past: seq<Cycle>, threshold: int)
    requires threshold >= 1
    ensures FuturesJustified(past, threshold) <==> Bounded(past, threshold, |past|)
  {
    hide After, Streak, Submitted, Step;
    var end := |past|;
    if Bounded(past, threshold, end) {
      forall future: seq<Cycle>, n: nat | Clearing(future) && end <= n < |past + future|
        ensures Justified(past + future, threshold, n) {
        SamePast(past, future, threshold, end);
        assert forall i :: end <= i < n ==> (past + future)[i] in future;
        BoundedFrom(past + future, threshold, end, n);
        if Restart in Submitted(past + future, threshold, n) { BoundedJustifies(past + future, threshold, n); }
      }
    } else {
      CounterBelowThreshold(past, threshold, end);
      var v := Failures(After(past, threshold, end).counter);
      var future := seq(threshold - v, i => FAILURE);
      var n := end + threshold - v - 1;
      Climb(past, future, threshold, threshold - v - 1);
      assert (past + future)[n] == FAILURE;
      SubmittedIs(past + future, threshold, n);
      assert !Justified(past + future, threshold, n);
    }
  }

  /** Only file operations that go through, and no outside damage. */
  predicate Undisturbed(cycles: seq<Cycle>) {
    forall c :: c in cycles ==> !c.damaged && c.unlinks && c.readable && c.write.Done?
  }

  lemma {:induction false} CounterIsStreak(cycles: seq<Cycle>, threshold: int, n: nat)
    requires n <= |cycles| && threshold >= 1 && Undisturbed(cycles)
    ensures Failures(After(cycles, threshold, n).counter) == Streak(cycles, threshold, n)
    decreases n
  {
    hide Step, Commands, After, Submitted, Streak, ClearsStreak, ActiveUnhealthy;
    if n > 0 {
      CounterIsStreak(cycles, threshold, n - 1);
      SubmittedIs(cycles, threshold, n - 1);
      StepCounter(After(cycles, threshold, n - 1), cycles[n - 1], threshold);
      StreakNext(cycles, threshold, n - 1);
      assert cycles[n - 1] in cycles;
    } else {
      StartsClean(cycles, threshold);
    }
  }

  /** Undisturbed, the service is restarted exactly at the threshold-th unhealthy probe in a row. */
  lemma RestartExactly(cycles: seq<Cycle>, threshold: int, n: nat)
    requires n < |cycles| && threshold >= 1 && Undisturbed(cycles)
    ensures Restart in Submitted(cycles, threshold, n)
      <==> ActiveUnhealthy(cycles[n]) && Streak(cycles, threshold, n) + 1 == threshold
  {
    assert cycles[n] in cycles;
    SubmittedIs(cycles, threshold, n);
    CounterIsStreak(cycles, threshold, n);
    CounterBelowThreshold(cycles, threshold, n);
  }

  /** An operator stop, a unit in transition and a probe that itself fails are left alone. */
  lemma QuietCycle(cycles: seq<Cycle>, threshold: int, n: nat)
    requires n < |cycles|
    requires cycles[n].state != Some("failed") && !ActiveUnhealthy(cycles[n])
    ensures After(cycles, threshold, n + 1).issued == After(cycles, threshold, n).issued
  {
    SubmittedIs(cycles, threshold, n);
  }

  function Restarts(issued: seq<Command>): nat {
    if issued == [] then 0 else Restarts(issued[..|issued| - 1]) + if issued[|issued| - 1].Restart? then 1 else 0
  }

  function UnhealthyProbes(cycles: seq<Cycle>, n: nat): nat
    requires n <= |cycles|
  {
    if n == 0 then 0 else UnhealthyProbes(cycles, n - 1) + if ActiveUnhealthy(cycles[n - 1]) then 1 else 0
  }

  lemma RestartsSubmitted(issued: seq<Command>, s: seq<Command>)
    requires s == [] || s == [ResetFailed] || s == [ResetFailed, Start] || s == [Restart]
    ensures Restarts(issued + s) == Restarts(issued) + if s == [Restart] then 1 else 0
  {
    assert issued + [] == issued;
    assert (issued + [ResetFailed])[..|issued|] == issued;
    assert (issued + [Restart])[..|issued|] == issued;
    assert (issued + [ResetFailed, Start])[..|issued| + 1] == issued + [ResetFailed];
  }

  /** Whatever fails or is damaged, each restart is paid for by `threshold` unhealthy probes of its own. */
  lemma {:induction false} RestartsPaidFor(cycles: seq<Cycle>, threshold: int, n: nat)
    requires n <= |cycles| && threshold >= 1
    ensures var w := After(cycles, threshold, n);
      Restarts(w.issued) * threshold + Failures(w.counter) <= UnhealthyProbes(cycles, n)
      && (w.counter.Number? ==> 0 < w.counter.value < threshold)
    decreases n
  {
    hide Step, After, Submitted, ClearsStreak, Restarts;
    if n > 0 {
      RestartsPaidFor(cycles, threshold, n - 1);
      SubmittedIs(cycles, threshold, n - 1);
      var w, c := After(cycles, threshold, n - 1), cycles[n - 1];
      StepCounter(w, c, threshold);
      RestartsSubmitted(w.issued, Commands(w, c, threshold));
      Distributes(Restarts(w.issued), threshold);
    } else {
      StartsClean(cycles, threshold);
      assert Restarts([]) == 0 by { NoRestarts(); }
    }
  }

  lemma NoRestarts()
    ensures Restarts([]) == 0
  {
  }

  lemma Distributes(n: int, t: int)
    ensures (n + 1) * t == n * t + t && 0 * t == 0
  {
  }

  /** A healthy probe whose clearing fails is forgotten: the restart then comes
      one unhealthy probe after it, with a threshold of two. */
  lemma UnclearedHealthyProbe()
    ensures var cycles := [FAILURE, FAILURE.(probe := Healthy, unlinks := false), FAILURE];
      Misses(cycles, 2, 1) && Restart in Submitted(cycles, 2, 2) && Streak(cycles, 2, 2) + 1 == 1
  {
    var cycles := [FAILURE, FAILURE.(probe := Healthy, unlinks := false), FAILURE];
    assert After(cycles, 2, 1) == Watch(Number(1), []);
    assert After(cycles, 2, 2) == Watch(Number(1), []);
    SubmittedIs(cycles, 2, 2);
  }
}
