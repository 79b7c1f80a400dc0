/** One session and the goroutine that keeps its DTLS channel, step by step: what closing the session
    means to the channel. */
module DtlsLifetime {
  import opened Wrappers
  import opened Sessions
  import opened DtlsSupervisor

  /** Where the goroutine is. Handshaking lasts until DtlsConnected is set, and Dropping from the end of
      the channel until it is cleared. */
  datatype Phase = Checking | Dialing | Handshaking | Up | Dropping | Waiting | Left

  /** current: the global session is this one. */
  datatype State = State(c: ConnSession, current: bool, phase: Phase)

  const START := State(NEW_SESSION, true, Checking)

  /** One atomic step of the goroutine or of others. A step that is not enabled changes nothing. */
  datatype Step =
    | CloseSession | OtherSession
    | Check | DialOk | DialFails | HandshakeOk(suite: Option<string>) | HandshakeFails
    | ReadFails | CloseSeenUp | Drop | TimerFires | CloseSeenWaiting

  function SuiteName(suite: Option<string>): string {
    match suite case Some(n) => n case None => ""
  }

  function Next(s: State, step: Step): State {
    match step
    case CloseSession => s.(c := Closed(s.c, s.current), current := s.current && s.c.once)
    case OtherSession => s.(current := false)
    case Check =>
      if !s.phase.Checking? then s else s.(phase := if s.c.closeChan.Open() then Dialing else Left)
    case DialOk => if s.phase.Dialing? then s.(phase := Handshaking) else s
    case DialFails => if s.phase.Dialing? then s.(phase := Waiting) else s
    case HandshakeOk(suite) =>
      if !s.phase.Handshaking? then s
      else s.(phase := Up, c := s.c.(dtlsConnected := true, cipherSuite := SuiteName(suite)))
    case HandshakeFails => if s.phase.Handshaking? then s.(phase := Waiting) else s
    case ReadFails => if s.phase.Up? then s.(phase := Dropping) else s
    case CloseSeenUp => if s.phase.Up? && !s.c.dSess.closeChan.Open() then s.(phase := Left) else s
    case Drop =>
      if s.phase.Dropping? then s.(phase := Waiting, c := s.c.(dtlsConnected := false, cipherSuite := "")) else s
    case TimerFires => if s.phase.Waiting? then s.(phase := Checking) else s
    case CloseSeenWaiting => if s.phase.Waiting? && !s.c.closeChan.Open() then s.(phase := Left) else s
  }

  function After(s: State, run: seq<Step>): State {
    if run == [] then s else Next(After(s, run[..|run| - 1]), run[|run| - 1])
  }

  predicate Connected(s: State) {
    s.phase.Up? || s.phase.Dropping?
  }

  /** Until the session is closed the flag says where the goroutine is, and the goroutine stays. */
  predicate Valid(s: State) {
    && s.c.Consistent()
    && (!s.c.once ==> (s.c.dtlsConnected <==> Connected(s)) && s.c.dSess.closeChan.Open() && !s.phase.Left?)
  }

  lemma {:induction false} RunValid(s: State, run: seq<Step>)
    requires Valid(s)
    ensures Valid(After(s, run))
  {
    if run != [] { RunValid(s, run[..|run| - 1]); }
  }

  /** Once the session is closed, nothing closes the DTLS session any more. */
  lemma {:induction false} NothingCloses(s: State, run: seq<Step>)
    requires s.c.once
    ensures After(s, run).c.once && After(s, run).c.dSess == s.c.dSess
  {
    if run != [] { NothingCloses(s, run[..|run| - 1]); }
  }

  lemma {:induction false} AfterConcat(s: State, a: seq<Step>, b: seq<Step>)
    ensures After(s, a + b) == After(After(s, a), b)
  {
    hide Next;
    if b == [] {
      assert a + b == a;
    } else {
      var n := |b| - 1;
      AfterConcat(s, a, b[..n]);
      assert (a + b)[..|a| + n] == a + b[..n];
    }
  }

  lemma {:induction false} StaysOpen(s: State, run: seq<Step>)
    requires !s.c.once && CloseSession !in run
    ensures !After(s, run).c.once
  {
    if run != [] { StaysOpen(s, run[..|run| - 1]); }
  }

  /** Over every run, the DTLS session of a closed session ends up closed if and only if the session was
      closed while the goroutine was between setting and clearing DtlsConnected. */
  lemma ClosedWithSession(before: seq<Step>, rest: seq<Step>)
    requires CloseSession !in before
    ensures var s := After(START, before + [CloseSession] + rest);
            s.c.once && (!s.c.dSess.closeChan.Open() <==> Connected(After(START, before)))
  {
    hide Next;
    var s := After(START, before);
    RunValid(START, before);
    StaysOpen(START, before);
    assert [CloseSession][..0] == [];
    AfterConcat(START, before, [CloseSession]);
    AfterConcat(START, before + [CloseSession], rest);
    CloseStep(s);
    NothingCloses(Next(s, CloseSession), rest);
  }

  lemma CloseStep(s: State)
    requires Valid(s) && !s.c.once
    ensures var t := Next(s, CloseSession);
            t.c.once && t.phase == s.phase && (!t.c.dSess.closeChan.Open() <==> Connected(s))
    ensures Next(s, CloseSession) == After(s, [CloseSession])
  {
    assert [CloseSession][..0] == [];
  }

  // ----- a channel nobody will close

  /** The session is closed, the channel is up, and the channel it listens to is open. */
  predicate Stranded(s: State) {
    s.c.once && s.phase.Up? && s.c.dSess.closeChan.Open()
  }

  ghost predicate CanStrand(s: State) {
    exists run: seq<Step> :: Stranded(After(s, run))
  }

  /** It stays so until a read fails. */
  lemma {:induction false} StrandedStays(s: State, run: seq<Step>)
    requires Stranded(s) && ReadFails !in run
    ensures Stranded(After(s, run))
  {
    if run != [] { StrandedStays(s, run[..|run| - 1]); }
  }

  /** The goroutine will see that the session is closed. */
  predicate Noticing(s: State) {
    && s.c.once && !s.c.closeChan.Open()
    && (!s.c.dSess.closeChan.Open() || s.phase.Checking? || s.phase.Waiting? || s.phase.Left?)
  }

  lemma {:induction false} NoticingStays(s: State, run: seq<Step>)
    requires Noticing(s)
    ensures Noticing(After(s, run))
  {
    if run != [] { NoticingStays(s, run[..|run| - 1]); }
  }

  /** Closing a session can leave its channel stranded if and only if the goroutine is dialing or
      shaking hands at that moment. */
  lemma StrandedExactly(s: State)
    requires Valid(s) && !s.c.once
    ensures CanStrand(Next(s, CloseSession)) <==> s.phase.Dialing? || s.phase.Handshaking?
  {
    var t := Next(s, CloseSession);
    if s.phase.Dialing? || s.phase.Handshaking? {
      HandshakeStrands(t);
    } else {
      forall run: seq<Step> ensures !Stranded(After(t, run)) {
        NoticingStays(t, run);
      }
    }
  }

  lemma HandshakeStrands(t: State)
    requires t.c.once && t.c.dSess.closeChan.Open() && (t.phase.Dialing? || t.phase.Handshaking?)
    ensures Stranded(After(t, [DialOk, HandshakeOk(None)])) && CanStrand(t)
  {
    var run := [DialOk, HandshakeOk(None)];
    assert run[..1] == [DialOk] && [DialOk][..0] == [];
    assert After(t, [DialOk]) == Next(t, DialOk);
  }

  /** Such a run from the start. */
  lemma StrandedRun()
    ensures Stranded(After(START, [Check, CloseSession, DialOk, HandshakeOk(None)]))
  {
    var run := [Check, CloseSession, DialOk, HandshakeOk(None)];
    assert run == [Check] + [CloseSession] + [DialOk, HandshakeOk(None)];
    assert [Check][..0] == [];
    var s := After(START, [Check]);
    AfterConcat(START, [Check], [CloseSession]);
    AfterConcat(START, [Check] + [CloseSession], [DialOk, HandshakeOk(None)]);
    CloseStep(s);
    HandshakeStrands(Next(s, CloseSession));
  }

  // ----- turns of the goroutine

  function WaitSteps(wait: Wait): seq<Step> {
    match wait case Fired => [TimerFires] case SessionClosed => [CloseSession, CloseSeenWaiting]
  }

  /** A turn of the supervisor as steps, the session being closed where the turn says that it is seen. */
  function TurnSteps(turn: Turn): seq<Step> {
    match turn
    case CloseSeen => [CloseSession, Check]
    case DialFailed(wait) => [Check, DialFails] + WaitSteps(wait)
    case HandshakeFailed(wait) => [Check, DialOk, HandshakeFails] + WaitSteps(wait)
    case ClosedWhileUp(suite) => [Check, DialOk, HandshakeOk(suite), CloseSession, CloseSeenUp]
    case Lost(suite, wait) => [Check, DialOk, HandshakeOk(suite), ReadFails, Drop] + WaitSteps(wait)
  }

  /** Turns of the supervisor are runs of the steps: it leaves exactly at a turn that ends, and never
      with the flag set while the session is the current one. */
  lemma TurnRuns(s: State, turn: Turn)
    requires Valid(s) && s.phase.Checking? && !s.c.once
    ensures var t := After(s, TurnSteps(turn));
            && t.phase == (if turn.Ends() then Left else Checking)
            && (turn.Ends() <==> t.c.once)
            && (turn.ClosedWhileUp? <==> !t.c.dSess.closeChan.Open())
            && (s.current || !turn.ClosedWhileUp? ==> !t.c.dtlsConnected)
  {
    hide After;
    match turn {
      case CloseSeen =>
        AfterTwo(s, CloseSession, Check, []);
        assert TurnSteps(turn) == [CloseSession, Check] + [];
      case DialFailed(wait) =>
        AfterTwo(s, Check, DialFails, WaitSteps(wait));
        WaitRuns(s.(phase := Waiting), wait);
      case HandshakeFailed(wait) =>
        assert TurnSteps(turn) == [Check, DialOk] + ([HandshakeFails] + WaitSteps(wait));
        AfterTwo(s, Check, DialOk, [HandshakeFails] + WaitSteps(wait));
        AfterOne(s.(phase := Handshaking), HandshakeFails, WaitSteps(wait));
        WaitRuns(s.(phase := Waiting), wait);
      case ClosedWhileUp(suite) =>
        assert TurnSteps(turn) == [Check, DialOk, HandshakeOk(suite)] + ([CloseSession, CloseSeenUp] + []);
        UpRuns(s, suite, [CloseSession, CloseSeenUp] + []);
        AfterTwo(UpFrom(s, suite), CloseSession, CloseSeenUp, []);
      case Lost(suite, wait) =>
        assert TurnSteps(turn) == [Check, DialOk, HandshakeOk(suite)] + ([ReadFails, Drop] + WaitSteps(wait));
        UpRuns(s, suite, [ReadFails, Drop] + WaitSteps(wait));
        AfterTwo(UpFrom(s, suite), ReadFails, Drop, WaitSteps(wait));
        WaitRuns(Next(Next(UpFrom(s, suite), ReadFails), Drop), wait);
    }
  }

  function UpFrom(s: State, suite: Option<string>): State {
    s.(phase := Up, c := s.c.(dtlsConnected := true, cipherSuite := SuiteName(suite)))
  }

  lemma UpRuns(s: State, suite: Option<string>, rest: seq<Step>)
    requires s.phase.Checking? && s.c.closeChan.Open()
    ensures After(s, [Check, DialOk, HandshakeOk(suite)] + rest) == After(UpFrom(s, suite), rest)
  {
    hide After;
    assert [Check, DialOk, HandshakeOk(suite)] + rest == [Check, DialOk] + ([HandshakeOk(suite)] + rest);
    AfterTwo(s, Check, DialOk, [HandshakeOk(suite)] + rest);
    AfterOne(s.(phase := Handshaking), HandshakeOk(suite), rest);
  }

  lemma AfterOne(s: State, step: Step, rest: seq<Step>)
    ensures After(s, [step] + rest) == After(Next(s, step), rest)
  {
    hide Next;
    AfterConcat(s, [step], rest);
    assert [step][..0] == [];
  }

  lemma AfterTwo(s: State, a: Step, b: Step, rest: seq<Step>)
    ensures After(s, [a, b] + rest) == After(Next(Next(s, a), b), rest)
    ensures After(s, []) == s && (rest == [] ==> After(s, [a, b] + rest) == Next(Next(s, a), b))
  {
    hide Next;
    AfterOne(s, a, [b] + rest);
    AfterOne(Next(s, a), b, rest);
    assert [a, b] + rest == [a] + ([b] + rest);
  }

  lemma WaitRuns(s: State, wait: Wait)
    requires Valid(s) && s.phase.Waiting? && !s.c.once
    ensures var t := After(s, WaitSteps(wait));
            && t.phase == (if wait.Fired? then Checking else Left) && (wait.SessionClosed? <==> t.c.once)
            && t.c.dSess.closeChan.Open() && !t.c.dtlsConnected
  {
    hide After;
    match wait
    case Fired =>
      AfterOne(s, TimerFires, []);
      AfterTwo(Next(s, TimerFires), Check, Check, []);
      assert [TimerFires] + [] == [TimerFires];
    case SessionClosed =>
      AfterTwo(s, CloseSession, CloseSeenWaiting, []);
      assert [CloseSession, CloseSeenWaiting] + [] == [CloseSession, CloseSeenWaiting];
  }
}
