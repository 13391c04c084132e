/**
 * The loop of supervise in src/agentwatch.c, as a machine over what the system answers each turn: waitpid,
 * the clock, the interrupt flag, the signal sweeps and poll. Times are milliseconds in a uint64_t.
 */
module Supervision {
  import opened Bytes
  import opened Options

  const TIME_MAX: nat := SIZE_MAX
  type Time = t: nat | t <= TIME_MAX
  const FINAL_REAP_MS: Time := 2000

  datatype Status = Exited(code: nat) | Signaled(signal: nat) | OtherStatus
  datatype Reap = Reap(pid: int, status: Status)
  datatype WaitEnd = NoneReady | NoChildren | WaitFailed

  datatype Turn = Turn(reaped: seq<Reap>, waitEnd: WaitEnd, clock: Option<Time>, interrupted: bool,
                       sweepOk: bool, sweepUncertain: bool, pollFailed: bool)

  datatype Setup = Setup(child: int, start: Time, deadline: Option<Time>, grace: Time, startFailed: bool)

  datatype Signal = Term | Kill
  /** A call of signal_tree and the time it was made at. */
  datatype Sweep = Sweep(signal: Signal, at: Time)

  /** How far the escalation has come. */
  datatype Plan = Plan(killed: bool, cleanup: Time, sweeps: seq<Sweep>)

  datatype State = State(directDone: bool, directStatus: Status, terminating: bool, timedOut: bool, internal: bool,
                         uncertain: bool, noChildren: bool, plan: Plan, now: Time, exited: bool)

  function Begin(o: Setup): State {
    State(false, Exited(0), false, false, false, false, false, Plan(false, 0, []), o.start, false)
  }

  /** add_ms fails rather than wrap. */
  predicate Overflows(base: Time, increment: Time) {
    base > TIME_MAX - increment
  }

  /** The first status the command itself was reaped with, unless one is known already. */
  function Noted(child: int, done: bool, status: Status, reaped: seq<Reap>): (bool, Status) {
    if done || reaped == [] then (done, status)
    else if reaped[0].pid == child then (true, reaped[0].status)
    else Noted(child, done, status, reaped[1..])
  }

  /** The time a turn goes by; the starting time stands in for a clock that cannot be read. */
  function TimeOf(o: Setup, e: Turn): Time {
    if e.clock.Some? then e.clock.value else o.start
  }

  predicate Broken(s: State, e: Turn) {
    s.internal || e.waitEnd == WaitFailed || e.clock == None
  }

  predicate Expired(o: Setup, s: State, e: Turn) {
    o.deadline.Some? && TimeOf(o, e) >= o.deadline.value && !s.terminating && !e.interrupted
  }

  predicate Terminating(o: Setup, s: State, e: Turn) {
    s.terminating || e.interrupted || Expired(o, s, e) || o.startFailed || Broken(s, e)
  }

  datatype Action = SendTerm | SendKill | GiveUp | Nothing

  /** The escalation: TERM, then KILL once the grace is over, then giving up. */
  function Act(terminating: bool, p: Plan, now: Time): Action {
    if terminating && p.cleanup == 0 then SendTerm
    else if terminating && !p.killed && now >= p.cleanup then SendKill
    else if p.killed && now >= p.cleanup then GiveUp
    else Nothing
  }

  function NextDeadline(base: Time, increment: Time, previous: Time): Time {
    if Overflows(base, increment) then previous else base + increment
  }

  function NextPlan(o: Setup, a: Action, p: Plan, now: Time): Plan {
    match a
    case SendTerm => Plan(p.killed, NextDeadline(now, o.grace, p.cleanup), p.sweeps + [Sweep(Term, now)])
    case SendKill => Plan(true, NextDeadline(now, FINAL_REAP_MS, p.cleanup), p.sweeps + [Sweep(Kill, now)])
    case GiveUp => p
    case Nothing => p
  }

  /** What of an action counts as an internal failure. */
  predicate Trouble(o: Setup, a: Action, e: Turn, now: Time) {
    match a
    case SendTerm => !e.sweepOk || Overflows(now, o.grace)
    case SendKill => !e.sweepOk || Overflows(now, FINAL_REAP_MS)
    case GiveUp => true
    case Nothing => false
  }

  /** A poll, which a quiet wait for stragglers does without, can fail. */
  predicate PollTrouble(a: Action, terminating: bool, done: bool, e: Turn) {
    a != GiveUp && (terminating || !done) && e.pollFailed
  }

  function Step(o: Setup, s: State, e: Turn): State {
    var (done, status) := Noted(o.child, s.directDone, s.directStatus, e.reaped);
    if e.waitEnd == NoChildren then
      State(done, status, s.terminating, s.timedOut, s.internal, s.uncertain, true, s.plan, s.now, true)
    else
      var now, terminating := TimeOf(o, e), Terminating(o, s, e);
      var a := Act(terminating, s.plan, now);
      State(done, status, terminating, s.timedOut || Expired(o, s, e),
            Broken(s, e) || Trouble(o, a, e, now) || PollTrouble(a, terminating, done, e),
            s.uncertain || ((a == SendTerm || a == SendKill) && e.sweepUncertain),
            s.noChildren, NextPlan(o, a, s.plan, now), now, a == GiveUp)
  }

  function Run(o: Setup, turns: seq<Turn>): State
    decreases |turns|
  {
    if turns == [] then Begin(o)
    else
      var s := Run(o, turns[..|turns| - 1]);
      if s.exited then s else Step(o, s, turns[|turns| - 1])
  }

  function ExitCode(o: Setup, s: State, interrupt: nat): nat {
    if interrupt != 0 then 128 + interrupt
    else if o.startFailed then 127
    else if s.timedOut then 124
    else if s.internal || (s.uncertain && !s.noChildren) then 125
    else match s.directStatus
      case Exited(code) => code
      case Signaled(signal) => 128 + signal
      case OtherStatus => 125
  }

  /** add_ms: it leaves the value alone rather than wrap. */
  method AddMs(base: Time, increment: Time, previous: Time) returns (ok: bool, value: Time)
    ensures ok <==> base + increment <= TIME_MAX
    ensures value == if ok then base + increment else previous
  {
    if base > TIME_MAX - increment {
      return false, previous;
    }
    ok, value := true, base + increment;
  }

  /** The inner loop over waitpid. */
  method ReapChildren(child: int, done: bool, status: Status, reaped: seq<Reap>)
    returns (directDone: bool, directStatus: Status)
    ensures (directDone, directStatus) == Noted(child, done, status, reaped)
  {
    directDone, directStatus := done, status;
    var i := 0;
    while i < |reaped|
      invariant i <= |reaped|
      invariant Noted(child, directDone, directStatus, reaped[i..]) == Noted(child, done, status, reaped)
    {
      assert reaped[i..][1..] == reaped[i + 1..];
      if reaped[i].pid == child && !directDone {
        directDone, directStatus := true, reaped[i].status;
      }
      i := i + 1;
    }
  }

  /** The part of a turn that sends signals. */
  method Escalate(o: Setup, terminating: bool, plan: Plan, now: Time, e: Turn)
    returns (next: Plan, trouble: bool, swept: bool, giveUp: bool)
    ensures var a := Act(terminating, plan, now);
      && next == NextPlan(o, a, plan, now) && trouble == Trouble(o, a, e, now)
      && swept == (a == SendTerm || a == SendKill) && giveUp == (a == GiveUp)
  {
    var killed, cleanupDeadline, sweeps := plan.killed, plan.cleanup, plan.sweeps;
    trouble, swept, giveUp := false, false, false;
    if terminating && cleanupDeadline == 0 {
      sweeps, swept := sweeps + [Sweep(Term, now)], true;
      var ok;
      ok, cleanupDeadline := AddMs(now, o.grace, cleanupDeadline);
      trouble := !e.sweepOk || !ok;
    } else if terminating && !killed && now >= cleanupDeadline {
      sweeps, swept := sweeps + [Sweep(Kill, now)], true;
      killed := true;
      var ok;
      ok, cleanupDeadline := AddMs(now, FINAL_REAP_MS, cleanupDeadline);
      trouble := !e.sweepOk || !ok;
    } else if killed && now >= cleanupDeadline {
      trouble, giveUp := true, true;
    }
    next := Plan(killed, cleanupDeadline, sweeps);
  }

  /** The part of a turn that looks at the clock, the interrupt flag and the deadline. */
  method Look(o: Setup, ghost s: State, internal: bool, terminating: bool, timedOut: bool, e: Turn)
    returns (broken: bool, now: Time, ending: bool, expired: bool)
    requires s.internal == internal && s.terminating == terminating && s.timedOut == timedOut
    ensures broken == Broken(s, e) && now == TimeOf(o, e) && ending == Terminating(o, s, e)
    ensures expired == (timedOut || Expired(o, s, e))
  {
    broken, ending, expired := internal, terminating, timedOut;
    if e.waitEnd == WaitFailed {
      broken := true;
    }
    if e.clock == None {
      broken := true;
      now := o.start;
    } else {
      now := e.clock.value;
    }
    if e.interrupted && !ending {
      ending := true;
    }
    if o.deadline.Some? && now >= o.deadline.value && !ending {
      expired := true;
      ending := true;
    }
    if (o.startFailed || broken) && !ending {
      ending := true;
    }
  }

  /** What follows the loop. */
  method FinalCode(o: Setup, interrupt: nat, timedOut: bool, internal: bool, uncertain: bool, noChildren: bool,
                   directStatus: Status, ghost s: State) returns (code: nat)
    requires s.timedOut == timedOut && s.internal == internal && s.uncertain == uncertain
    requires s.noChildren == noChildren && s.directStatus == directStatus
    ensures code == ExitCode(o, s, interrupt)
  {
    if interrupt != 0 {
      return 128 + interrupt;
    }
    if o.startFailed {
      return 127;
    }
    if timedOut {
      return 124;
    }
    if internal || (uncertain && !noChildren) {
      return 125;
    }
    if directStatus.Exited? {
      return directStatus.code;
    }
    if directStatus.Signaled? {
      return 128 + directStatus.signal;
    }
    code := 125;
  }

  lemma LastStep(o: Setup, s: State, e: Turn)
    requires e.waitEnd == NoChildren
    ensures var n := Noted(o.child, s.directDone, s.directStatus, e.reaped);
      Step(o, s, e)
        == State(n.0, n.1, s.terminating, s.timedOut, s.internal, s.uncertain, true, s.plan, s.now, true)
  {
    hide Noted;
  }

  lemma WholeStep(o: Setup, s: State, e: Turn)
    requires e.waitEnd != NoChildren
    ensures var n := Noted(o.child, s.directDone, s.directStatus, e.reaped);
      var now, terminating := TimeOf(o, e), Terminating(o, s, e);
      var a := Act(terminating, s.plan, now);
      Step(o, s, e)
        == State(n.0, n.1, terminating, s.timedOut || Expired(o, s, e),
                 Broken(s, e) || Trouble(o, a, e, now) || PollTrouble(a, terminating, n.0, e),
                 s.uncertain || ((a == SendTerm || a == SendKill) && e.sweepUncertain),
                 s.noChildren, NextPlan(o, a, s.plan, now), now, a == GiveUp)
  {
    hide Noted, TimeOf, Terminating, Act, Expired, Broken, Trouble, PollTrouble, NextPlan;
  }

  lemma PollTells(a: Action, terminating: bool, done: bool, e: Turn)
    ensures a == GiveUp ==> !PollTrouble(a, terminating, done, e)
    ensures a != GiveUp ==> PollTrouble(a, terminating, done, e) == ((terminating || !done) && e.pollFailed)
  {
  }

  lemma {:induction false} OneMoreTurn(o: Setup, turns: seq<Turn>, i: nat)
    requires i < |turns|
    ensures Run(o, turns[..i + 1])
      == if Run(o, turns[..i]).exited then Run(o, turns[..i]) else Step(o, Run(o, turns[..i]), turns[i])
  {
    assert turns[..i + 1][..i] == turns[..i];
  }

  lemma {:induction false} StaysExited(o: Setup, turns: seq<Turn>, i: nat)
    requires i <= |turns| && Run(o, turns[..i]).exited
    ensures Run(o, turns) == Run(o, turns[..i])
    decreases |turns| - i
  {
    hide Step;
    if i < |turns| {
      OneMoreTurn(o, turns, i);
      StaysExited(o, turns, i + 1);
    } else {
      assert turns[..i] == turns;
    }
  }

  /** The loop and what follows it; no code yet if the loop has not ended when the turns run out. */
  method Supervise(o: Setup, turns: seq<Turn>, interrupt: nat) returns (code: Option<nat>, sweeps: seq<Sweep>)
    ensures var s := Run(o, turns);
      sweeps == s.plan.sweeps && code == if s.exited then Some(ExitCode(o, s, interrupt)) else None
  {
    hide ExitCode, Noted, Act, NextPlan, Trouble, Broken, Terminating, Expired, TimeOf, Step, PollTrouble;
    var now: Time, plan := o.start, Plan(false, 0, []);
    var terminating, directDone, noChildren := false, false, false;
    var timedOut, internal, uncertain, exited := false, false, false, false;
    var directStatus := Exited(0);
    var i := 0;
    while i < |turns| && !exited
      invariant i <= |turns|
      invariant Run(o, turns[..i]) == State(directDone, directStatus, terminating, timedOut, internal, uncertain,
                                            noChildren, plan, now, exited)
    {
      OneMoreTurn(o, turns, i);
      ghost var s := Run(o, turns[..i]);
      hide Run;
      var e := turns[i];
      i := i + 1;
      directDone, directStatus := ReapChildren(o.child, directDone, directStatus, e.reaped);
      if e.waitEnd == NoChildren {
        noChildren, exited := true, true;
        LastStep(o, s, e);
        break;
      }
      internal, now, terminating, timedOut := Look(o, s, internal, terminating, timedOut, e);
      var trouble, swept, giveUp;
      plan, trouble, swept, giveUp := Escalate(o, terminating, plan, now, e);
      internal := internal || trouble;
      uncertain := uncertain || (swept && e.sweepUncertain);
      WholeStep(o, s, e);
      PollTells(Act(terminating, s.plan, now), terminating, directDone, e);
      if giveUp {
        exited := true;
        break;
      }
      if terminating || !directDone {
        if e.pollFailed {
          internal := true;
        }
      }
    }
    if exited {
      StaysExited(o, turns, i);
    }
    assert turns[..|turns|] == turns;
    sweeps := plan.sweeps;
    if !exited {
      return None, sweeps;
    }
    var e := FinalCode(o, interrupt, timedOut, internal, uncertain, noChildren, directStatus, Run(o, turns));
    code := Some(e);
  }

  /** No turn comes so late that a deadline could not be written down. */
  predicate NoOverflow(o: Setup, turns: seq<Turn>) {
    forall i :: 0 <= i < |turns| ==>
      !Overflows(TimeOf(o, turns[i]), o.grace) && !Overflows(TimeOf(o, turns[i]), FINAL_REAP_MS)
  }

  /** Where the escalation can be: before TERM, after TERM, after KILL. */
  predicate InOrder(o: Setup, terminating: bool, p: Plan) {
    if p.sweeps == [] then !p.killed && p.cleanup == 0
    else if |p.sweeps| == 1 then
      p.sweeps[0].signal == Term && !p.killed && terminating && p.cleanup == p.sweeps[0].at + o.grace
    else
      && |p.sweeps| == 2 && p.sweeps[0].signal == Term && p.sweeps[1].signal == Kill && p.killed && terminating
      && p.sweeps[0].at + o.grace <= p.sweeps[1].at && p.cleanup == p.sweeps[1].at + FINAL_REAP_MS
  }

  /** How the loop can have ended. */
  predicate Ended(s: State) {
    s.noChildren
    || (s.internal && |s.plan.sweeps| == 2 && s.now >= s.plan.sweeps[1].at + FINAL_REAP_MS)
  }

  lemma StepInOrder(o: Setup, s: State, e: Turn)
    requires o.grace >= 1 && !Overflows(TimeOf(o, e), o.grace) && !Overflows(TimeOf(o, e), FINAL_REAP_MS)
    requires InOrder(o, s.terminating, s.plan) && !s.exited
    ensures InOrder(o, Step(o, s, e).terminating, Step(o, s, e).plan)
    ensures Step(o, s, e).exited ==> Ended(Step(o, s, e))
  {
    hide Noted, Expired, Broken;
  }

  /**
   * Over every run: at most one TERM sweep and at most one KILL sweep, KILL after TERM and no less than the
   * grace later; and the loop ends only with no children left, or two seconds or more after KILL with
   * internal set. The positive grace is what makes zero usable as "no deadline yet".
   */
  lemma {:induction false} Escalation(o: Setup, turns: seq<Turn>)
    requires o.grace >= 1 && NoOverflow(o, turns)
    ensures InOrder(o, Run(o, turns).terminating, Run(o, turns).plan)
    ensures Run(o, turns).exited ==> Ended(Run(o, turns))
    decreases |turns|
  {
    hide Noted;
    if turns != [] {
      var rest := turns[..|turns| - 1];
      assert forall i :: 0 <= i < |rest| ==> rest[i] == turns[i];
      Escalation(o, rest);
      if !Run(o, rest).exited {
        StepInOrder(o, Run(o, rest), turns[|turns| - 1]);
      }
    }
  }

  /** The loop ends only with no children left or with internal set, whatever the clock does. */
  lemma {:induction false} EndsForAReason(o: Setup, turns: seq<Turn>)
    ensures Run(o, turns).exited ==> Run(o, turns).noChildren || Run(o, turns).internal
    ensures Run(o, turns).noChildren ==> Run(o, turns).exited
    decreases |turns|
  {
    hide Noted;
    if turns != [] {
      EndsForAReason(o, turns[..|turns| - 1]);
    }
  }

  /** Two turns that differ at most in what the sweep could not make out. */
  predicate AlikeTurn(d: Turn, e: Turn) {
    && d.reaped == e.reaped && d.waitEnd == e.waitEnd && d.clock == e.clock && d.interrupted == e.interrupted
    && d.sweepOk == e.sweepOk && d.pollFailed == e.pollFailed
  }

  /** Two states that differ at most in whether something was uncertain. */
  predicate AlikeState(s: State, t: State) {
    && s.directDone == t.directDone && s.directStatus == t.directStatus && s.terminating == t.terminating
    && s.timedOut == t.timedOut && s.internal == t.internal && s.noChildren == t.noChildren
    && s.plan == t.plan && s.now == t.now && s.exited == t.exited
  }

  predicate Alike(d: seq<Turn>, e: seq<Turn>) {
    |d| == |e| && forall i :: 0 <= i < |d| ==> AlikeTurn(d[i], e[i])
  }

  lemma LooksAlike(o: Setup, s: State, t: State, d: Turn, e: Turn)
    requires AlikeState(s, t) && AlikeTurn(d, e)
    ensures TimeOf(o, d) == TimeOf(o, e) && Broken(s, d) == Broken(t, e) && Expired(o, s, d) == Expired(o, t, e)
    ensures Terminating(o, s, d) == Terminating(o, t, e)
  {
  }

  lemma ActionsAlike(o: Setup, a: Action, now: Time, terminating: bool, done: bool, d: Turn, e: Turn)
    requires AlikeTurn(d, e)
    ensures Trouble(o, a, d, now) == Trouble(o, a, e, now)
    ensures PollTrouble(a, terminating, done, d) == PollTrouble(a, terminating, done, e)
  {
    hide Overflows;
  }

  lemma GoingOnAlike(o: Setup, s: State, t: State, d: Turn, e: Turn)
    requires AlikeState(s, t) && AlikeTurn(d, e) && d.waitEnd != NoChildren
    ensures AlikeState(Step(o, s, d), Step(o, t, e))
  {
    LooksAlike(o, s, t, d, e);
    WholeStep(o, s, d);
    WholeStep(o, t, e);
    hide Noted, Act, NextPlan, Trouble, PollTrouble, TimeOf, Broken, Expired, Terminating, Step;
    var n := Noted(o.child, s.directDone, s.directStatus, d.reaped);
    var now, terminating := TimeOf(o, d), Terminating(o, s, d);
    ActionsAlike(o, Act(terminating, s.plan, now), now, terminating, n.0, d, e);
  }

  lemma StepsAlike(o: Setup, s: State, t: State, d: Turn, e: Turn)
    requires AlikeState(s, t) && AlikeTurn(d, e)
    ensures AlikeState(Step(o, s, d), Step(o, t, e))
  {
    hide Noted, Step;
    if d.waitEnd == NoChildren {
      LastStep(o, s, d);
      LastStep(o, t, e);
    } else {
      GoingOnAlike(o, s, t, d, e);
    }
  }

  lemma {:induction false} RunsAlike(o: Setup, d: seq<Turn>, e: seq<Turn>)
    requires Alike(d, e)
    ensures AlikeState(Run(o, d), Run(o, e))
    decreases |d|
  {
    hide Noted;
    if d != [] {
      var n := |d| - 1;
      assert forall i :: 0 <= i < n ==> AlikeTurn(d[..n][i], e[..n][i]);
      RunsAlike(o, d[..n], e[..n]);
      assert AlikeTurn(d[n], e[n]);
      StepsAlike(o, Run(o, d[..n]), Run(o, e[..n]), d[n], e[n]);
    }
  }

  /** What a sweep could not make out never shows: neither in when the loop ends nor in the exit code. */
  lemma {:induction false} UncertaintyIsInvisible(o: Setup, d: seq<Turn>, e: seq<Turn>, interrupt: nat)
    requires Alike(d, e)
    ensures Run(o, d).exited == Run(o, e).exited && Run(o, d).plan == Run(o, e).plan
    ensures Run(o, d).exited ==> ExitCode(o, Run(o, d), interrupt) == ExitCode(o, Run(o, e), interrupt)
  {
    hide Run, Step;
    RunsAlike(o, d, e);
    EndsForAReason(o, d);
    EndsForAReason(o, e);
  }

  /** A turn by a clock that does not go back, with children left. */
  predicate Later(o: Setup, s: State, e: Turn) {
    s.now <= TimeOf(o, e) && e.waitEnd != NoChildren
  }

  /** A turn that swept with the signal. */
  predicate Swept(before: State, after: State, signal: Signal) {
    after.plan.sweeps == before.plan.sweeps + [Sweep(signal, after.now)]
  }

  /** TERM is repeated on the very next turn exactly when its deadline could not be written down. */
  lemma TermAgain(o: Setup, s: State, d: Turn, e: Turn)
    requires 1 <= o.grace && InOrder(o, s.terminating, s.plan) && !s.exited && s.plan.sweeps == []
    requires Swept(s, Step(o, s, d), Term) && Later(o, Step(o, s, d), e)
    ensures Swept(Step(o, s, d), Step(o, Step(o, s, d), e), Term) <==> TimeOf(o, d) + o.grace > TIME_MAX
  {
    hide Noted;
    var t := Step(o, s, d);
    assert t.plan.sweeps == [Sweep(Term, t.now)] && t.now == TimeOf(o, d);
    var again, onward := t.plan.sweeps + [Sweep(Term, TimeOf(o, e))], t.plan.sweeps + [Sweep(Kill, TimeOf(o, e))];
    assert again[1] != onward[1] && |again| == 2;
  }

  /** The two seconds after KILL are cut short exactly when their end could not be written down. */
  lemma EarlyEnd(o: Setup, s: State, d: Turn, e: Turn)
    requires 1 <= o.grace && InOrder(o, s.terminating, s.plan) && !s.exited && |s.plan.sweeps| == 1
    requires Swept(s, Step(o, s, d), Kill) && Later(o, Step(o, s, d), e)
    requires TimeOf(o, e) < TimeOf(o, d) + FINAL_REAP_MS
    ensures Step(o, Step(o, s, d), e).exited <==> TimeOf(o, d) + FINAL_REAP_MS > TIME_MAX
  {
    hide Noted;
    var t := Step(o, s, d);
    assert t.plan.sweeps[1] == Sweep(Kill, t.now);
    assert t.now == TimeOf(o, d) && t.plan.killed && !t.exited;
  }

  /** The code of the command is the one it was first reaped with. */
  function AllReaped(turns: seq<Turn>): seq<Reap>
    decreases |turns|
  {
    if turns == [] then [] else AllReaped(turns[..|turns| - 1]) + turns[|turns| - 1].reaped
  }

  lemma {:induction false} NotedOfConcat(child: int, done: bool, status: Status, a: seq<Reap>, b: seq<Reap>)
    ensures Noted(child, done, status, a + b)
      == Noted(child, Noted(child, done, status, a).0, Noted(child, done, status, a).1, b)
    decreases |a|
  {
    if a == [] {
      assert a + b == b;
    } else {
      assert (a + b)[1..] == a[1..] + b;
      if !done && a[0].pid != child {
        NotedOfConcat(child, done, status, a[1..], b);
      }
    }
  }

  lemma {:induction false} DirectStatusIsFirst(o: Setup, turns: seq<Turn>)
    requires turns == [] || !Run(o, turns[..|turns| - 1]).exited
    ensures var s := Run(o, turns);
      (s.directDone, s.directStatus) == Noted(o.child, false, Exited(0), AllReaped(turns))
    decreases |turns|
  {
    if turns != [] {
      var n := |turns| - 1;
      DirectStatusIsFirst(o, turns[..n]);
      NotedOfConcat(o.child, false, Exited(0), AllReaped(turns[..n]), turns[n].reaped);
    }
  }

  /** A code below 124 means that nothing went wrong and every child is gone; it is the status on record. */
  lemma {:induction false} OwnCodeMeansClean(o: Setup, turns: seq<Turn>, interrupt: nat)
    requires Run(o, turns).exited && ExitCode(o, Run(o, turns), interrupt) < 124
    ensures Run(o, turns).noChildren && interrupt == 0 && !o.startFailed
    ensures !Run(o, turns).timedOut && !Run(o, turns).internal
    ensures Run(o, turns).directStatus == Exited(ExitCode(o, Run(o, turns), interrupt))
  {
    hide Run, Step;
    EndsForAReason(o, turns);
  }

  /** The command is among those reaped. */
  predicate CommandReaped(child: int, reaped: seq<Reap>) {
    exists i :: 0 <= i < |reaped| && reaped[i].pid == child
  }

  lemma {:induction false} NotedMeansReaped(child: int, done: bool, status: Status, reaped: seq<Reap>)
    ensures Noted(child, done, status, reaped).0 <==> done || CommandReaped(child, reaped)
    ensures !Noted(child, done, status, reaped).0 ==> Noted(child, done, status, reaped).1 == status
    decreases |reaped|
  {
    if !done && reaped != [] {
      NotedMeansReaped(child, false, status, reaped[1..]);
      if reaped[0].pid != child && CommandReaped(child, reaped) {
        var i :| 0 <= i < |reaped| && reaped[i].pid == child;
        assert reaped[1..][i - 1].pid == child;
      }
    }
  }

  /**
   * Whose code a code below 124 is. If the command was reaped it is the code the command was first reaped with.
   * If not, which the loop does not rule out, it is the zero that the status starts with.
   */
  lemma {:induction false} WhoseCode(o: Setup, turns: seq<Turn>, interrupt: nat)
    requires turns != [] && !Run(o, turns[..|turns| - 1]).exited
    requires Run(o, turns).exited && ExitCode(o, Run(o, turns), interrupt) < 124
    ensures var code := ExitCode(o, Run(o, turns), interrupt);
      if CommandReaped(o.child, AllReaped(turns)) then
        Run(o, turns).directDone && Noted(o.child, false, Exited(0), AllReaped(turns)) == (true, Exited(code))
      else
        !Run(o, turns).directDone && code == 0
  {
    hide Run, Noted, ExitCode;
    OwnCodeMeansClean(o, turns, interrupt);
    DirectStatusIsFirst(o, turns);
    NotedMeansReaped(o.child, false, Exited(0), AllReaped(turns));
  }

  /** What waitpid promises of the supervisor's own child: no ECHILD before the command has been reaped. */
  predicate ReapsBeforeNone(o: Setup, turns: seq<Turn>) {
    forall i :: 0 <= i < |turns| && turns[i].waitEnd == NoChildren ==>
      CommandReaped(o.child, AllReaped(turns[..i + 1]))
  }

  lemma NoChildrenIsSeen(o: Setup, s: State, e: Turn)
    ensures Step(o, s, e).noChildren <==> s.noChildren || e.waitEnd == NoChildren
  {
    hide Noted, Act, NextPlan, Trouble, PollTrouble, TimeOf, Broken, Expired, Terminating;
  }

  /** With that promise a code below 124 is the command's own. */
  lemma {:induction false} CodeIsTheCommands(o: Setup, turns: seq<Turn>, interrupt: nat)
    requires turns != [] && !Run(o, turns[..|turns| - 1]).exited && ReapsBeforeNone(o, turns)
    requires Run(o, turns).exited && ExitCode(o, Run(o, turns), interrupt) < 124
    ensures Run(o, turns).directDone
    ensures Noted(o.child, false, Exited(0), AllReaped(turns))
      == (true, Exited(ExitCode(o, Run(o, turns), interrupt)))
  {
    var n := |turns| - 1;
    OwnCodeMeansClean(o, turns, interrupt);
    EndsForAReason(o, turns[..n]);
    OneMoreTurn(o, turns, n);
    assert turns[..n + 1] == turns;
    NoChildrenIsSeen(o, Run(o, turns[..n]), turns[n]);
    hide Run, Noted, ExitCode, Step;
    WhoseCode(o, turns, interrupt);
  }

  /** Without it, code 0 is reported for a command that was never reaped. */
  lemma CodeWithoutCommand()
    ensures var o := Setup(7, 0, None, 5000, false);
      var turns := [Turn([], NoChildren, Some(1), false, true, false, false)];
      Run(o, turns).exited && ExitCode(o, Run(o, turns), 0) == 0 && !Run(o, turns).directDone
  {
    var o := Setup(7, 0, None, 5000, false);
    var turns := [Turn([], NoChildren, Some(1), false, true, false, false)];
    assert turns[..0] == [] && Run(o, turns[..0]) == Begin(o);
  }

  /** TERM twice: an interrupt at the last representable millisecond. */
  lemma TermTwice()
    ensures var o := Setup(7, TIME_MAX, None, 5000, false);
      var turn := Turn([], NoneReady, Some(TIME_MAX), true, true, false, false);
      Run(o, [turn, turn]).plan.sweeps == [Sweep(Term, TIME_MAX), Sweep(Term, TIME_MAX)]
  {
    var o := Setup(7, TIME_MAX, None, 5000, false);
    var turn := Turn([], NoneReady, Some(TIME_MAX), true, true, false, false);
    var turns := [turn, turn];
    OneMoreTurn(o, turns, 0);
    OneMoreTurn(o, turns, 1);
    assert turns[..0] == [] && turns[..2] == turns && Run(o, []) == Begin(o);
    hide Run, Noted;
    var s := Step(o, Begin(o), turn);
    assert s.plan == Plan(false, 0, [Sweep(Term, TIME_MAX)]) && !s.exited;
  }

  /** Given up in the very millisecond of KILL: the grace just fits, the two seconds after it do not. */
  lemma GivenUpAtOnce()
    ensures var o := Setup(7, TIME_MAX - 5000, None, 5000, false);
      var first := Turn([], NoneReady, Some(TIME_MAX - 5000), true, true, false, false);
      var last := Turn([], NoneReady, Some(TIME_MAX), true, true, false, false);
      && Run(o, [first, last, last]).plan.sweeps == [Sweep(Term, TIME_MAX - 5000), Sweep(Kill, TIME_MAX)]
      && Run(o, [first, last, last]).exited && !Run(o, [first, last, last]).noChildren
  {
    var o := Setup(7, TIME_MAX - 5000, None, 5000, false);
    var first := Turn([], NoneReady, Some(TIME_MAX - 5000), true, true, false, false);
    var last := Turn([], NoneReady, Some(TIME_MAX), true, true, false, false);
    var turns := [first, last, last];
    OneMoreTurn(o, turns, 0);
    OneMoreTurn(o, turns, 1);
    OneMoreTurn(o, turns, 2);
    assert turns[..0] == [] && turns[..3] == turns && Run(o, []) == Begin(o);
    hide Run, Noted;
    var s := Step(o, Begin(o), first);
    assert s.plan == Plan(false, TIME_MAX, [Sweep(Term, TIME_MAX - 5000)]) && !s.exited;
    var t := Step(o, s, last);
    assert t.plan == Plan(true, TIME_MAX, [Sweep(Term, TIME_MAX - 5000), Sweep(Kill, TIME_MAX)]) && !t.exited;
  }

  predicate ClockGoesOn(o: Setup, turns: seq<Turn>) {
    && (forall i :: 0 <= i < |turns| ==> o.start <= TimeOf(o, turns[i]))
    && forall i, j :: 0 <= i < j < |turns| ==> TimeOf(o, turns[i]) <= TimeOf(o, turns[j])
  }

  /**
   * The escalation with overflow counted in. What the first TERM finds decides the run: if its deadline cannot
   * be written down, every sweep is a TERM and KILL never comes; if it can, TERM is not repeated.
   */
  predicate Decided(o: Setup, terminating: bool, p: Plan) {
    if p.sweeps == [] then !p.killed && p.cleanup == 0
    else
      var first := p.sweeps[0];
      && first.signal == Term && terminating
      && if Overflows(first.at, o.grace) then
           !p.killed && p.cleanup == 0
           && forall k :: 0 <= k < |p.sweeps| ==> p.sweeps[k].signal == Term && first.at <= p.sweeps[k].at
         else if |p.sweeps| == 1 then !p.killed && p.cleanup == first.at + o.grace
         else
           && |p.sweeps| == 2 && p.killed && p.sweeps[1].signal == Kill && first.at + o.grace <= p.sweeps[1].at
           && p.cleanup == NextDeadline(p.sweeps[1].at, FINAL_REAP_MS, first.at + o.grace)
  }

  lemma StepDecided(o: Setup, s: State, e: Turn)
    requires o.grace >= 1 && Decided(o, s.terminating, s.plan) && !s.exited
    requires forall k :: 0 <= k < |s.plan.sweeps| ==> s.plan.sweeps[k].at <= TimeOf(o, e)
    ensures Decided(o, Step(o, s, e).terminating, Step(o, s, e).plan)
    ensures var t := Step(o, s, e);
      t.exited ==> t.noChildren || (t.internal && t.plan.killed && t.now >= t.plan.cleanup)
  {
    hide Noted, Expired, Broken, TimeOf;
  }

  /** Every time recorded is a time some turn went by. */
  lemma {:induction false} RecordedBy(o: Setup, turns: seq<Turn>, t: Time)
    requires o.start <= t && forall i :: 0 <= i < |turns| ==> TimeOf(o, turns[i]) <= t
    ensures Run(o, turns).now <= t
    ensures forall k :: 0 <= k < |Run(o, turns).plan.sweeps| ==> Run(o, turns).plan.sweeps[k].at <= t
    decreases |turns|
  {
    hide Noted, Broken, Expired, Terminating, Trouble, PollTrouble, TimeOf;
    if turns != [] {
      var n := |turns| - 1;
      assert forall i :: 0 <= i < n ==> turns[..n][i] == turns[i];
      RecordedBy(o, turns[..n], t);
    }
  }

  /** Every run under a clock that does not go back, however late. */
  lemma {:induction false} EveryRun(o: Setup, turns: seq<Turn>)
    requires o.grace >= 1 && ClockGoesOn(o, turns)
    ensures Decided(o, Run(o, turns).terminating, Run(o, turns).plan)
    ensures var s := Run(o, turns);
      s.exited ==> s.noChildren || (s.internal && s.plan.killed && s.now >= s.plan.cleanup)
    decreases |turns|
  {
    if turns != [] {
      var n := |turns| - 1;
      assert forall i :: 0 <= i < n ==> turns[..n][i] == turns[i];
      EveryRun(o, turns[..n]);
      RecordedBy(o, turns[..n], TimeOf(o, turns[n]));
      hide Noted, Decided, ClockGoesOn, Step, TimeOf;
      if !Run(o, turns[..n]).exited {
        StepDecided(o, Run(o, turns[..n]), turns[n]);
      }
    }
  }

  lemma {:induction false} OrderAt(o: Setup, turns: seq<Turn>, i: nat)
    requires o.grace >= 1 && NoOverflow(o, turns) && i <= |turns|
    ensures InOrder(o, Run(o, turns[..i]).terminating, Run(o, turns[..i]).plan)
  {
    hide Run, InOrder;
    assert forall k :: 0 <= k < i ==> turns[..i][k] == turns[k];
    Escalation(o, turns[..i]);
  }

  lemma StepKeepsPlan(o: Setup, s: State, e: Turn)
    requires o.grace >= 1 && InOrder(o, s.terminating, s.plan) && |s.plan.sweeps| == 2
    ensures Step(o, s, e).plan == s.plan
  {
    hide Noted, Broken, Expired, Trouble, PollTrouble, TimeOf;
  }

  /** Once KILL is sent, the plan stays until the loop ends. */
  lemma {:induction false} KillLasts(o: Setup, turns: seq<Turn>, i: nat, j: nat)
    requires o.grace >= 1 && NoOverflow(o, turns) && i <= j <= |turns| && |Run(o, turns[..i]).plan.sweeps| == 2
    ensures Run(o, turns[..j]).exited || Run(o, turns[..j]).plan == Run(o, turns[..i]).plan
    decreases j
  {
    if i < j {
      hide InOrder, Step, Run, NoOverflow;
      KillLasts(o, turns, i, j - 1);
      OneMoreTurn(o, turns, j - 1);
      OrderAt(o, turns, j - 1);
      if !Run(o, turns[..j - 1]).exited {
        StepKeepsPlan(o, Run(o, turns[..j - 1]), turns[j - 1]);
      }
    }
  }

  /** A turn at or after the end of the grace leaves KILL sent, or the loop ended. */
  lemma {:induction false} KillFollows(o: Setup, turns: seq<Turn>, i: nat)
    requires o.grace >= 1 && NoOverflow(o, turns) && ClockGoesOn(o, turns) && i < |turns|
    requires Run(o, turns[..i]).plan.sweeps != []
    requires TimeOf(o, turns[i]) >= Run(o, turns[..i]).plan.sweeps[0].at + o.grace
    ensures var s := Run(o, turns[..i + 1]);
      s.exited || (|s.plan.sweeps| == 2 && s.plan.sweeps[1].at <= TimeOf(o, turns[i]))
  {
    OrderAt(o, turns, i);
    OneMoreTurn(o, turns, i);
    RecordedBy(o, turns[..i + 1], TimeOf(o, turns[i]));
    hide Run, Noted, Broken, Expired, Trouble, PollTrouble, NoOverflow, TimeOf, ClockGoesOn;
  }

  /** The loop cannot outlive its deadlines: a turn two seconds after one at the end of the grace is its last. */
  lemma {:induction false} EndsInTime(o: Setup, turns: seq<Turn>, i: nat, j: nat)
    requires o.grace >= 1 && NoOverflow(o, turns) && ClockGoesOn(o, turns) && i < j < |turns|
    requires Run(o, turns[..i]).plan.sweeps != []
    requires TimeOf(o, turns[i]) >= Run(o, turns[..i]).plan.sweeps[0].at + o.grace
    requires TimeOf(o, turns[j]) >= TimeOf(o, turns[i]) + FINAL_REAP_MS
    ensures Run(o, turns[..j + 1]).exited
  {
    KillFollows(o, turns, i);
    assert turns[..j][..i + 1] == turns[..i + 1];
    if Run(o, turns[..i + 1]).exited {
      StaysExited(o, turns[..j], i + 1);
    } else {
      KillLasts(o, turns, i + 1, j);
    }
    OrderAt(o, turns, j);
    OneMoreTurn(o, turns, j);
    hide Run, Noted, Broken, Expired, Trouble, PollTrouble, NoOverflow, TimeOf, ClockGoesOn;
  }

  /** The turn sees the deadline pass before anything else has asked for an end. */
  predicate PassesDeadline(o: Setup, s: State, e: Turn) {
    && e.waitEnd != NoChildren && !s.terminating && !e.interrupted
    && o.deadline.Some? && TimeOf(o, e) >= o.deadline.value
  }

  predicate SawDeadline(o: Setup, turns: seq<Turn>, i: nat) {
    i < |turns| && !Run(o, turns[..i]).exited && PassesDeadline(o, Run(o, turns[..i]), turns[i])
  }

  lemma TimedOutStep(o: Setup, s: State, e: Turn)
    ensures Step(o, s, e).timedOut <==> s.timedOut || PassesDeadline(o, s, e)
  {
    hide Noted, Act, NextPlan, Trouble, PollTrouble;
  }

  /** A timeout is reported exactly when some turn saw the deadline pass first. */
  lemma {:induction false} TimedOutExactly(o: Setup, turns: seq<Turn>)
    ensures Run(o, turns).timedOut <==> exists i: nat :: SawDeadline(o, turns, i)
    decreases |turns|
  {
    if turns != [] {
      var n := |turns| - 1;
      TimedOutExactly(o, turns[..n]);
      OneMoreTurn(o, turns, n);
      assert turns[..n + 1] == turns;
      forall i: nat | i < n
        ensures SawDeadline(o, turns, i) <==> SawDeadline(o, turns[..n], i)
      {
        assert turns[..n][..i] == turns[..i];
      }
      TimedOutStep(o, Run(o, turns[..n]), turns[n]);
      hide Run, Step, TimeOf;
      if SawDeadline(o, turns, n) {
        assert Run(o, turns).timedOut;
      }
      if i: nat :| SawDeadline(o, turns[..n], i) {
        assert SawDeadline(o, turns, i);
      }
      if i: nat :| SawDeadline(o, turns, i) && i != n {
        assert SawDeadline(o, turns[..n], i);
      }
    }
  }
}
