/** The exit code of supervise in src/agentwatch.c, told from what the system answered each turn. */
module ExitCodes {
  import opened Bytes
  import opened Options
  import opened Supervision

  /** TERM has been sent exactly when the run is to end; before that nothing is planned. */
  predicate TermSent(s: State) {
    (s.terminating <==> s.plan.sweeps != []) && (s.plan.sweeps == [] ==> !s.plan.killed && s.plan.cleanup == 0)
  }

  /** The turn asks for an end: an interrupt, the deadline, a failed start, or something that went wrong. */
  predicate Asks(o: Setup, s: State, e: Turn) {
    e.waitEnd != NoChildren
    && (|| e.interrupted || o.startFailed || s.internal || e.waitEnd == WaitFailed || e.clock == None
        || (o.deadline.Some? && TimeOf(o, e) >= o.deadline.value))
  }

  lemma StepSendsTerm(o: Setup, s: State, e: Turn)
    requires TermSent(s)
    ensures var t := Step(o, s, e);
      && TermSent(t)
      && s.plan.sweeps <= t.plan.sweeps
      && (s.plan.sweeps == [] && Asks(o, s, e) ==> t.plan.sweeps == [Sweep(Term, TimeOf(o, e))])
      && (s.plan.sweeps == [] && !Asks(o, s, e) ==> t.plan.sweeps == [])
  {
    hide Noted;
  }

  lemma {:induction false} RunSendsTerm(o: Setup, turns: seq<Turn>)
    ensures TermSent(Run(o, turns))
    decreases |turns|
  {
    hide Step;
    if turns != [] {
      var n := |turns| - 1;
      RunSendsTerm(o, turns[..n]);
      StepSendsTerm(o, Run(o, turns[..n]), turns[n]);
    }
  }

  lemma {:induction false} SweepsStay(o: Setup, turns: seq<Turn>, i: nat)
    requires i <= |turns|
    ensures Run(o, turns[..i]).plan.sweeps <= Run(o, turns).plan.sweeps
    decreases |turns| - i
  {
    hide Step, Run, TermSent;
    if i < |turns| {
      OneMoreTurn(o, turns, i);
      RunSendsTerm(o, turns[..i]);
      StepSendsTerm(o, Run(o, turns[..i]), turns[i]);
      SweepsStay(o, turns, i + 1);
    } else {
      assert turns[..i] == turns;
    }
  }

  /** Turn i is made, and asks for an end. */
  predicate AsksAt(o: Setup, turns: seq<Turn>, i: nat) {
    i < |turns| && !Run(o, turns[..i]).exited && Asks(o, Run(o, turns[..i]), turns[i])
  }

  lemma {:induction false} NothingSent(o: Setup, turns: seq<Turn>, n: nat)
    requires n <= |turns| && forall i: nat :: i < n ==> !AsksAt(o, turns, i)
    ensures Run(o, turns[..n]).plan.sweeps == []
  {
    hide Step, Asks, TermSent;
    if n > 0 {
      NothingSent(o, turns, n - 1);
      OneMoreTurn(o, turns, n - 1);
      RunSendsTerm(o, turns[..n - 1]);
      StepSendsTerm(o, Run(o, turns[..n - 1]), turns[n - 1]);
      assert !AsksAt(o, turns, n - 1);
    }
  }

  /** The first turn that asks for an end sends TERM, at its own time. */
  lemma {:induction false} FirstAskSends(o: Setup, turns: seq<Turn>, i: nat)
    requires AsksAt(o, turns, i) && forall j: nat :: j < i ==> !AsksAt(o, turns, j)
    ensures var sweeps := Run(o, turns).plan.sweeps;
      sweeps != [] && sweeps[0] == Sweep(Term, if turns[i].clock.Some? then turns[i].clock.value else o.start)
  {
    NothingSent(o, turns, i);
    OneMoreTurn(o, turns, i);
    RunSendsTerm(o, turns[..i]);
    StepSendsTerm(o, Run(o, turns[..i]), turns[i]);
    SweepsStay(o, turns, i + 1);
    hide Step, Run, Asks;
  }

  lemma {:induction false} FirstAsk(o: Setup, turns: seq<Turn>, i: nat) returns (k: nat)
    requires AsksAt(o, turns, i)
    ensures AsksAt(o, turns, k) && forall j: nat :: j < k ==> !AsksAt(o, turns, j)
  {
    hide AsksAt;
    k := i;
    if j: nat :| j < i && AsksAt(o, turns, j) {
      k := FirstAsk(o, turns, j);
    }
  }

  /** A signal is sent exactly when some turn asks for an end. */
  lemma {:induction false} TermExactly(o: Setup, turns: seq<Turn>)
    ensures Run(o, turns).plan.sweeps != [] <==> exists i: nat :: AsksAt(o, turns, i)
  {
    if i: nat :| AsksAt(o, turns, i) {
      var k := FirstAsk(o, turns, i);
      FirstAskSends(o, turns, k);
    } else {
      NothingSent(o, turns, |turns|);
      assert turns[..|turns|] == turns;
    }
  }

  /**
   * What goes wrong in a turn: waitpid or the clock fails, a sweep fails or its deadline cannot be written down,
   * the wait after KILL is given up, or a poll fails that is made because the command is still there or on its
   * way out.
   */
  predicate Wrong(o: Setup, s: State, t: State, e: Turn) {
    e.waitEnd != NoChildren
    && (|| e.waitEnd == WaitFailed || e.clock == None
        || (t.plan.sweeps != s.plan.sweeps && !e.sweepOk)
        || (Swept(s, t, Term) && t.now + o.grace > TIME_MAX)
        || (Swept(s, t, Kill) && t.now + FINAL_REAP_MS > TIME_MAX)
        || t.exited
        || ((t.plan.sweeps != [] || !t.directDone) && e.pollFailed))
  }

  /** Which sweep was made tells the action. */
  lemma ActionTells(o: Setup, p: Plan, a: Action, now: Time, q: Plan)
    requires q == NextPlan(o, a, p, now)
    ensures a == SendTerm <==> q.sweeps == p.sweeps + [Sweep(Term, now)]
    ensures a == SendKill <==> q.sweeps == p.sweeps + [Sweep(Kill, now)]
    ensures q.sweeps != p.sweeps <==> a == SendTerm || a == SendKill
  {
    var n := |p.sweeps|;
    assert (p.sweeps + [Sweep(Term, now)])[n] != (p.sweeps + [Sweep(Kill, now)])[n];
    assert |p.sweeps + [Sweep(Term, now)]| == n + 1 && |p.sweeps + [Sweep(Kill, now)]| == n + 1;
  }

  lemma StepGoesWrong(o: Setup, s: State, e: Turn)
    requires TermSent(s)
    ensures Step(o, s, e).internal <==> s.internal || Wrong(o, s, Step(o, s, e), e)
  {
    StepSendsTerm(o, s, e);
    if e.waitEnd == NoChildren {
      LastStep(o, s, e);
    } else {
      WholeStep(o, s, e);
      hide Noted, Step, TimeOf, Terminating;
      var t := Step(o, s, e);
      var a := Act(t.terminating, s.plan, t.now);
      ActionTells(o, s.plan, a, t.now, t.plan);
    }
  }

  /** Turn i is made, and something goes wrong in it. */
  predicate WentWrong(o: Setup, turns: seq<Turn>, i: nat) {
    i < |turns| && !Run(o, turns[..i]).exited && Wrong(o, Run(o, turns[..i]), Run(o, turns[..i + 1]), turns[i])
  }

  /** An internal failure is recorded exactly when something went wrong in some turn. */
  lemma {:induction false} InternalExactly(o: Setup, turns: seq<Turn>, n: nat)
    requires n <= |turns|
    ensures Run(o, turns[..n]).internal <==> exists i: nat :: i < n && WentWrong(o, turns, i)
  {
    hide Step, Wrong, TermSent;
    if n > 0 {
      InternalExactly(o, turns, n - 1);
      OneMoreTurn(o, turns, n - 1);
      RunSendsTerm(o, turns[..n - 1]);
      StepGoesWrong(o, Run(o, turns[..n - 1]), turns[n - 1]);
      assert turns[..n - 1 + 1] == turns[..n];
      hide Run;
      if i: nat :| i < n && WentWrong(o, turns, i) {
        assert i < n - 1 || i == n - 1;
      }
      if Run(o, turns[..n]).internal && !Run(o, turns[..n - 1]).internal {
        assert WentWrong(o, turns, n - 1);
      }
    }
  }

  /** The k-th process reaped is the command, and none before it is. */
  predicate FirstReaped(child: int, reaped: seq<Reap>, k: nat) {
    k < |reaped| && reaped[k].pid == child && forall j :: 0 <= j < k ==> reaped[j].pid != child
  }

  lemma {:induction false} NotedIsFirst(child: int, status: Status, reaped: seq<Reap>, k: nat)
    requires FirstReaped(child, reaped, k)
    ensures Noted(child, false, status, reaped) == (true, reaped[k].status)
    decreases k
  {
    if k > 0 {
      NotedIsFirst(child, status, reaped[1..], k - 1);
    }
  }

  /** What a shell reports for the status: its code, 128 and the signal, or 125. */
  predicate Reports(code: nat, status: Status) {
    && (status.Exited? ==> code == status.code)
    && (status.Signaled? ==> code == 128 + status.signal)
    && (status.OtherStatus? ==> code == 125)
  }

  ghost predicate DeadlineSeen(o: Setup, turns: seq<Turn>) {
    exists i: nat :: SawDeadline(o, turns, i)
  }

  ghost predicate SomethingWrong(o: Setup, turns: seq<Turn>) {
    exists i: nat :: WentWrong(o, turns, i)
  }

  lemma {:induction false} InternalMeans(o: Setup, turns: seq<Turn>)
    ensures Run(o, turns).internal <==> SomethingWrong(o, turns)
  {
    hide Run, Wrong;
    InternalExactly(o, turns, |turns|);
    assert turns[..|turns|] == turns;
    if i: nat :| WentWrong(o, turns, i) {
      assert i < |turns|;
    }
  }

  lemma {:induction false} FirstOfCommand(child: int, reaped: seq<Reap>) returns (k: nat)
    requires CommandReaped(child, reaped)
    ensures FirstReaped(child, reaped, k)
    decreases |reaped|
  {
    if reaped[0].pid == child {
      k := 0;
    } else {
      var i :| 0 <= i < |reaped| && reaped[i].pid == child;
      assert reaped[1..][i - 1].pid == child;
      var j := FirstOfCommand(child, reaped[1..]);
      k := j + 1;
      assert forall m :: 0 < m < k ==> reaped[m] == reaped[1..][m - 1];
    }
  }

  /**
   * The exit code of a run that ends with its last turn. An interrupt comes first, then a failed start, then a
   * deadline seen to pass, then anything that went wrong; otherwise the command speaks.
   */
  lemma {:induction false} CodeFromTurns(o: Setup, turns: seq<Turn>, interrupt: nat)
    requires turns != [] && !Run(o, turns[..|turns| - 1]).exited && Run(o, turns).exited
    ensures var code := ExitCode(o, Run(o, turns), interrupt);
      if interrupt != 0 then code == 128 + interrupt
      else if o.startFailed then code == 127
      else if DeadlineSeen(o, turns) then code == 124
      else if SomethingWrong(o, turns) then code == 125
      else if CommandReaped(o.child, AllReaped(turns)) then
        exists k: nat :: FirstReaped(o.child, AllReaped(turns), k) && Reports(code, AllReaped(turns)[k].status)
      else code == 0
  {
    TimedOutExactly(o, turns);
    InternalMeans(o, turns);
    EndsForAReason(o, turns);
    DirectStatusIsFirst(o, turns);
    NotedMeansReaped(o.child, false, Exited(0), AllReaped(turns));
    hide Run, SawDeadline, SomethingWrong, AllReaped, Noted;
    if CommandReaped(o.child, AllReaped(turns)) {
      var k := FirstOfCommand(o.child, AllReaped(turns));
      NotedIsFirst(o.child, Exited(0), AllReaped(turns), k);
    }
  }

  /** Every run that has ended ended with one of its turns; what was to come later makes no difference. */
  lemma {:induction false} EndsWithTurn(o: Setup, turns: seq<Turn>) returns (i: nat)
    requires Run(o, turns).exited
    ensures i < |turns| && !Run(o, turns[..i]).exited && Run(o, turns[..i + 1]) == Run(o, turns)
    decreases |turns|
  {
    hide Step;
    var n := |turns| - 1;
    if Run(o, turns[..n]).exited {
      i := EndsWithTurn(o, turns[..n]);
      assert turns[..n][..i] == turns[..i] && turns[..n][..i + 1] == turns[..i + 1];
      StaysExited(o, turns, n);
    } else {
      i := n;
      assert turns[..n + 1] == turns;
    }
  }
}
