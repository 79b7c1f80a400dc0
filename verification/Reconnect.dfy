/** Automatic reconnection: the back-off loop, and its interplay with the CONNECT, RECONNECT and
    DISCONNECT handlers as a transition system. */
module Reconnect {
  import opened Bits

  // ----- the loop on its own

  /** Two to the k seconds, at most sixty. */
  function Delay(k: nat): nat {
    if k < 6 then Pow2(k) else 60
  }

  /** As the loop computes it. */
  lemma DelayStep(k: nat)
    ensures Delay(k + 1) == if 2 * Delay(k) > 60 then 60 else 2 * Delay(k)
  {
    assert Pow2(3) == 8 && Pow2(4) == 16 && Pow2(5) == 32 && Pow2(6) == 64;
    if k < 5 { assert Pow2(k + 1) == 2 * Pow2(k); }
  }

  lemma DelayIsCappedPower(k: nat)
    ensures Delay(k) == if Pow2(k) < 60 then Pow2(k) else 60
  {
    assert Pow2(5) == 32 && Pow2(6) == 64;
    if k < 6 { PowGrows(k, 5); } else { PowGrows(6, k); }
  }

  lemma {:induction false} PowGrows(a: nat, b: nat)
    requires a <= b
    ensures Pow2(a) <= Pow2(b)
    decreases b
  {
    if a < b { PowGrows(a, b - 1); }
  }

  /** What the loop meets in one round: ActiveClose as read before and after the sleep, and the
      attempt's outcome with ActiveClose as read after a success. */
  datatype Round = Round(closedBefore: bool, closedAfter: bool, connected: bool, closedThen: bool)

  /** The rounds that end in another turn of the loop. */
  predicate Again(r: Round) {
    !r.closedBefore && !r.closedAfter && !r.connected
  }

  lemma FirstDelay()
    ensures Delay(0) == 1
  {
  }

  // ----- the loop among the handlers

  datatype Phase = Checking | Sleeping | Trying

  /** A running reconnect goroutine: where it is, its delay variable, attempts failed so far. */
  datatype Loop = Loop(phase: Phase, delay: nat, failures: nat)

  datatype State = State(
    autoReconnecting: bool,
    activeClose: bool,
    current: bool,        // a session is installed
    loops: seq<Loop>,     // running reconnect goroutines
    setups: nat,          // handlers past their guard that have not yet installed a session
    settling: nat,        // handlers that have, and are not yet done
    attempts: nat)        // reconnect attempts begun

  const START := State(false, false, false, [], 0, 0, 0)

  /** One atomic step of some goroutine. A step that is not enabled changes nothing. Monitors may
      wake at any time, which includes every time they can. */
  datatype Step =
    | ConnectRequest | ReconnectRequest | DisconnectRequest
    | SetupFails | SetupInstalls | SettleFails | SettleDone
    | SessionLost | MonitorWakes(enabled: bool)
    | LoopChecks | LoopWakes | LoopInstalls | LoopFails(installed: bool) | LoopConnects

  /** DisConnect: marks the close as wanted and closes the current session. */
  function DisConnect(s: State): State {
    s.(activeClose := true, current := false)
  }

  /** NewConnSession, as far as it matters here. */
  function Installed(s: State): State {
    s.(current := true, activeClose := false)
  }

  /** The reconnect goroutine at the head of loops returns. */
  function LoopExits(s: State): State
    requires s.loops != []
  {
    s.(loops := s.loops[1..], autoReconnecting := false)
  }

  function LoopMoves(s: State, l: Loop): State
    requires s.loops != []
  {
    s.(loops := [l] + s.loops[1..])
  }

  predicate LoopAt(s: State, phase: Phase) {
    s.loops != [] && s.loops[0].phase == phase
  }

  function Next(s: State, step: Step): State {
    match step
    case ConnectRequest =>
      if s.autoReconnecting || s.current then s else s.(setups := s.setups + 1)
    case ReconnectRequest =>
      if s.current then s else s.(setups := s.setups + 1)
    case DisconnectRequest =>
      if s.autoReconnecting || s.current then DisConnect(s) else s
    case SetupFails =>
      if s.setups == 0 then s else DisConnect(s).(setups := s.setups - 1)
    case SetupInstalls =>
      if s.setups == 0 then s else Installed(s).(setups := s.setups - 1, settling := s.settling + 1)
    case SettleFails =>
      if s.settling == 0 then s else DisConnect(s).(settling := s.settling - 1)
    case SettleDone =>
      if s.settling == 0 then s else s.(settling := s.settling - 1)
    case SessionLost =>
      s.(current := false)
    case MonitorWakes(enabled) =>
      if s.activeClose || !enabled || s.autoReconnecting then s
      else s.(autoReconnecting := true, loops := s.loops + [Loop(Checking, 1, 0)])
    case LoopChecks =>
      if !LoopAt(s, Checking) then s
      else if s.activeClose then LoopExits(s)
      else LoopMoves(s, s.loops[0].(phase := Sleeping))
    case LoopWakes =>
      if !LoopAt(s, Sleeping) then s
      else if s.activeClose then LoopExits(s)
      else LoopMoves(s, s.loops[0].(phase := Trying)).(attempts := s.attempts + 1)
    case LoopInstalls =>
      if !LoopAt(s, Trying) then s else Installed(s)
    case LoopFails(installed) =>
      if !LoopAt(s, Trying) then s
      else
        var l := s.loops[0];
        LoopMoves(s, Loop(Checking, if 2 * l.delay > 60 then 60 else 2 * l.delay, l.failures + 1))
          .(current := s.current && !installed)
    case LoopConnects =>
      if !LoopAt(s, Trying) then s
      else if s.activeClose then LoopExits(DisConnect(s))
      else LoopExits(s)
  }

  function After(s: State, run: seq<Step>): State {
    if run == [] then s else Next(After(s, run[..|run| - 1]), run[|run| - 1])
  }

  /** At most one loop, exactly when the flag is set, and its delay is the capped power. */
  predicate Safe(s: State) {
    && |s.loops| == (if s.autoReconnecting then 1 else 0)
    && (forall i :: 0 <= i < |s.loops| ==> s.loops[i].delay == Delay(s.loops[i].failures))
  }

  lemma StepSafe(s: State, step: Step)
    requires Safe(s)
    ensures Safe(Next(s, step))
  {
    hide Delay;
    FirstDelay();
    if s.loops != [] { DelayStep(s.loops[0].failures); }
  }

  /** In every run at most one reconnect loop is active, and the wait before its attempt k+1 is
      min(2^k, 60) seconds. */
  lemma {:induction false} RunSafe(s: State, run: seq<Step>)
    requires Safe(s)
    ensures Safe(After(s, run))
  {
    hide Next, Safe;
    if run != [] {
      RunSafe(s, run[..|run| - 1]);
      StepSafe(After(s, run[..|run| - 1]), run[|run| - 1]);
    }
  }

  predicate SwitchedOff(run: seq<Step>) {
    forall i :: 0 <= i < |run| && run[i].MonitorWakes? ==> !run[i].enabled
  }

  /** With automatic reconnection switched off, no run has a loop or an attempt. */
  lemma {:induction false} NoLoopWhenOff(run: seq<Step>)
    requires SwitchedOff(run)
    ensures After(START, run).loops == [] && After(START, run).attempts == 0
    ensures !After(START, run).autoReconnecting
  {
    if run != [] { NoLoopWhenOff(run[..|run| - 1]); }
  }

  /** A CONNECT finds a session or a reconnect loop and does nothing, a RECONNECT only a session; a DISCONNECT
      without either does nothing, and with either marks the close as wanted and leaves no session. */
  lemma Guards(s: State)
    ensures s.current || s.autoReconnecting ==> Next(s, ConnectRequest) == s
    ensures s.current ==> Next(s, ReconnectRequest) == s
    ensures !s.current && !s.autoReconnecting ==> Next(s, DisconnectRequest) == s
    ensures s.current || s.autoReconnecting ==>
              var t := Next(s, DisconnectRequest);
              t.activeClose && !t.current && t.loops == s.loops && t.setups == s.setups
  {
  }

  /** A DISCONNECT that arrives while an attempt is succeeding is honoured: the new session is closed and
      the loop ends. */
  lemma LateDisconnect(s: State)
    requires Safe(s) && LoopAt(s, Trying) && s.activeClose
    ensures var t := Next(s, LoopConnects);
            !t.current && t.activeClose && t.loops == [] && !t.autoReconnecting && t.attempts == s.attempts
  {
    hide Delay;
  }

  // ----- the loop by itself is the loop among the handlers

  const BEGUN := State(true, false, false, [Loop(Checking, 1, 0)], 0, 0, 0)

  /** The loop's own steps in one round, ActiveClose being set by others as the round says. */
  function RoundSteps(s: State, r: Round): State {
    var checked := Next(s.(activeClose := r.closedBefore), LoopChecks);
    if checked.loops == [] then checked
    else
      var woken := Next(checked.(activeClose := r.closedAfter), LoopWakes);
      if woken.loops == [] then woken
      else if r.connected then Next(Next(woken, LoopInstalls).(activeClose := r.closedThen), LoopConnects)
      else Next(woken, LoopFails(false))
  }

  /** Rounds until the loop has ended. */
  function RoundsFrom(s: State, rounds: seq<Round>): State {
    if rounds == [] then s
    else
      var t := RoundsFrom(s, rounds[..|rounds| - 1]);
      if t.loops == [] then t else RoundSteps(t, rounds[|rounds| - 1])
  }

  lemma RoundMoves(s: State, r: Round)
    requires Safe(s) && LoopAt(s, Checking) && !s.current
    ensures var k, t := s.loops[0].failures, RoundSteps(s, r);
            && (Again(r) ==> t.loops == [Loop(Checking, Delay(k + 1), k + 1)] && Safe(t))
            && (!Again(r) ==> t.loops == [])
            && t.attempts == s.attempts + (if r.closedBefore || r.closedAfter then 0 else 1)
            && (t.current <==> r == Round(false, false, true, false))
  {
    hide Delay;
    DelayStep(s.loops[0].failures);
  }

  lemma {:induction false} RoundsStay(s: State, rounds: seq<Round>, i: nat)
    requires i <= |rounds| && RoundsFrom(s, rounds[..i]).loops == []
    ensures RoundsFrom(s, rounds) == RoundsFrom(s, rounds[..i])
    decreases |rounds|
  {
    hide RoundSteps;
    if i == |rounds| {
      assert rounds[..i] == rounds;
    } else {
      assert rounds[..|rounds| - 1][..i] == rounds[..i];
      RoundsStay(s, rounds[..|rounds| - 1], i);
    }
  }

  /** The reconnect goroutine. The k-th sleep lasts Delay(k) seconds, and an attempt follows it exactly
      when ActiveClose is unset. What it does is what its steps in the transition system do. */
  method ReconnectLoop(rounds: seq<Round>) returns (sleeps: seq<nat>, attempts: nat, up: bool)
    ensures forall k :: 0 <= k < |sleeps| ==> sleeps[k] == Delay(k)
    ensures attempts <= |sleeps| <= attempts + 1 && |sleeps| <= |rounds|
    ensures forall k :: 0 <= k < |sleeps| ==>
              !rounds[k].closedBefore && (k < attempts <==> !rounds[k].closedAfter)
    ensures forall k :: 0 <= k < |sleeps| - 1 ==> Again(rounds[k])
    ensures |sleeps| < |rounds| && (forall k :: 0 <= k < |sleeps| ==> Again(rounds[k])) ==>
              rounds[|sleeps|].closedBefore
    ensures var end := RoundsFrom(BEGUN, rounds);
            && attempts == end.attempts && (up <==> end.current)
            && (end.loops == [] <==> exists k :: 0 <= k < |rounds| && !Again(rounds[k]))
    ensures up ==> attempts > 0 && rounds[attempts - 1] == Round(false, false, true, false)
  {
    hide Delay, RoundSteps, RoundsFrom;
    sleeps, attempts, up := [], 0, false;
    var delay := 1;
    FirstDelay();
    NoRounds();
    assert rounds[..0] == [];
    var i := 0;
    while i < |rounds|
      invariant 0 <= i <= |rounds| && |sleeps| == attempts == i && delay == Delay(i) && !up
      invariant forall k :: 0 <= k < i ==> Again(rounds[k])
      invariant forall k :: 0 <= k < |sleeps| ==> sleeps[k] == Delay(k)
      invariant var t := RoundsFrom(BEGUN, rounds[..i]);
                Safe(t) && t.loops == [Loop(Checking, Delay(i), i)] && t.attempts == i && !t.current
    {
      var r := rounds[i];
      RoundsStep(BEGUN, rounds, i);
      RoundMoves(RoundsFrom(BEGUN, rounds[..i]), r);
      if !Again(r) { RoundsStay(BEGUN, rounds, i + 1); }
      if r.closedBefore {
        return;
      }
      sleeps := sleeps + [delay];
      if r.closedAfter {
        return;
      }
      attempts := attempts + 1;
      if r.connected {
        up := !r.closedThen;
        return;
      }
      DelayStep(i);
      delay := delay * 2;
      if delay > 60 {
        delay := 60;
      }
      i := i + 1;
    }
    assert rounds[..i] == rounds;
  }

  lemma NoRounds()
    ensures RoundsFrom(BEGUN, []) == BEGUN
  {
  }

  lemma RoundsStep(s: State, rounds: seq<Round>, i: nat)
    requires i < |rounds| && RoundsFrom(s, rounds[..i]).loops != []
    ensures RoundsFrom(s, rounds[..i + 1]) == RoundSteps(RoundsFrom(s, rounds[..i]), rounds[i])
  {
    assert rounds[..i + 1][..i] == rounds[..i];
  }

  // ----- cancelling

  /** The loop is asleep and a DISCONNECT arrives. */
  predicate AsleepIn(s: State) {
    Safe(s) && LoopAt(s, Sleeping)
  }

  /** After the run the loop has ended, attempts standing at n. */
  predicate EndedUntried(s: State, run: seq<Step>, n: nat) {
    After(s, run).loops == [] && After(s, run).attempts == n
  }

  /** No attempt is begun before the loop has ended. */
  ghost predicate Cancelled(s: State, run: seq<Step>) {
    || After(s, run).attempts == s.attempts
    || exists i :: 0 <= i < |run| && EndedUntried(s, run[..i], s.attempts)
  }

  lemma AfterSnoc(s: State, run: seq<Step>, step: Step)
    ensures After(s, run + [step]) == Next(After(s, run), step)
  {
    assert (run + [step])[..|run|] == run;
  }

  /** Once a DISCONNECT has landed in a sleep with no handler about to install a session, the loop
      can only end: nothing but a RECONNECT can clear ActiveClose before it wakes. */
  lemma {:induction false} CancelEnds(s: State, run: seq<Step>)
    requires AsleepIn(s) && s.setups == 0
    requires ReconnectRequest !in run
    ensures var d := Next(s, DisconnectRequest);
            || (After(d, run).loops == d.loops && After(d, run).activeClose && After(d, run).autoReconnecting
                && After(d, run).setups == 0 && After(d, run).attempts == s.attempts)
            || exists i :: 0 <= i <= |run| && EndedUntried(d, run[..i], s.attempts)
  {
    hide Delay;
    var d := Next(s, DisconnectRequest);
    if run != [] {
      var n := |run| - 1;
      CancelEnds(s, run[..n]);
      if i :| 0 <= i <= n && EndedUntried(d, run[..n][..i], s.attempts) {
        assert run[..n][..i] == run[..i];
      } else {
        assert run[n] in run;
        assert run[..|run|] == run;
      }
    }
  }

  /** A DISCONNECT during a sleep cancels the loop in every run without RECONNECT if and only if no
      CONNECT handler is then between its guard and the installation of its session. */
  lemma CancelExactly(s: State)
    requires AsleepIn(s)
    ensures (forall run: seq<Step> :: ReconnectRequest !in run ==> Cancelled(Next(s, DisconnectRequest), run))
            <==> s.setups == 0
  {
    hide Delay;
    var d := Next(s, DisconnectRequest);
    if s.setups == 0 {
      forall run: seq<Step> | ReconnectRequest !in run ensures Cancelled(d, run) {
        CancelEnds(s, run);
        if After(d, run).attempts != s.attempts {
          var i :| 0 <= i <= |run| && EndedUntried(d, run[..i], s.attempts);
          assert run[..|run|] == run;
          assert i < |run|;
        }
      }
    } else {
      var run := [SetupInstalls, LoopWakes];
      UncancelledRun(d);
      assert !Cancelled(d, run);
    }
  }

  /** The installation of a session clears ActiveClose, and the loop goes on. */
  lemma UncancelledRun(d: State)
    requires LoopAt(d, Sleeping) && d.setups > 0
    ensures !Cancelled(d, [SetupInstalls, LoopWakes])
  {
    var run := [SetupInstalls, LoopWakes];
    assert run[..0] == [] && run[..1] == [] + [SetupInstalls] && run == [SetupInstalls] + [LoopWakes];
    AfterSnoc(d, [], SetupInstalls);
    AfterSnoc(d, [SetupInstalls], LoopWakes);
    assert [] + [SetupInstalls] == [SetupInstalls];
    assert After(d, []) == d;
  }

  /** Such a state is reached: a second client's CONNECT passes its guard after the session was lost
      and before the loop has claimed the flag. */
  lemma CancelCanFail()
    ensures exists run :: ReconnectRequest !in run && AsleepIn(After(START, run)) && After(START, run).setups == 1
  {
    hide After, Delay;
    var a := [ConnectRequest, SetupInstalls, SettleDone];
    var b := a + [SessionLost] + [ConnectRequest];
    var run := b + [MonitorWakes(true)] + [LoopChecks];
    FirstConnection();
    AfterSnoc(START, a, SessionLost);
    AfterSnoc(START, a + [SessionLost], ConnectRequest);
    assert After(START, b) == State(false, false, false, [], 1, 0, 0);
    AfterSnoc(START, b, MonitorWakes(true));
    AfterSnoc(START, b + [MonitorWakes(true)], LoopChecks);
    assert After(START, run) == State(true, false, false, [Loop(Sleeping, 1, 0)], 1, 0, 0);
    FirstDelay();
  }

  lemma FirstConnection()
    ensures After(START, [ConnectRequest, SetupInstalls, SettleDone]) == State(false, false, true, [], 0, 0, 0)
  {
    var a, b := [ConnectRequest], [ConnectRequest, SetupInstalls];
    assert [] + [ConnectRequest] == a && a + [SetupInstalls] == b;
    assert b + [SettleDone] == [ConnectRequest, SetupInstalls, SettleDone];
    assert After(START, []) == START;
    hide After;
    AfterSnoc(START, [], ConnectRequest);
    AfterSnoc(START, a, SetupInstalls);
    AfterSnoc(START, b, SettleDone);
  }
}
