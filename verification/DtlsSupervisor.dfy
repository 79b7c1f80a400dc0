/** The goroutine that builds and rebuilds the DTLS channel of a session. */
module DtlsSupervisor {
  import opened Bits
  import opened Wrappers
  import opened Sessions

  /** How a retry wait ends. */
  datatype Wait = Fired | SessionClosed

  /** What happens in one turn of the loop; each failure and each loss is followed by a wait. */
  datatype Turn =
    | CloseSeen
    | DialFailed(wait: Wait)
    | HandshakeFailed(wait: Wait)
    | ClosedWhileUp(suite: Option<string>)
    | Lost(suite: Option<string>, wait: Wait)
  {
    predicate Waits() {
      DialFailed? || HandshakeFailed? || Lost?
    }

    predicate Ends() {
      CloseSeen? || ClosedWhileUp? || (Waits() && wait.SessionClosed?)
    }
  }

  /** Turn j is the last success at or before turn i. */
  predicate LastLost(turns: seq<Turn>, j: nat, i: nat) {
    j <= i < |turns| && turns[j].Lost? && forall m :: j < m <= i ==> !turns[m].Lost?
  }

  predicate NoneLost(turns: seq<Turn>, i: nat) {
    i < |turns| && forall m :: 0 <= m <= i ==> !turns[m].Lost?
  }

  function Min(a: nat, b: nat): nat {
    if a < b then a else b
  }

  /** Five seconds, doubled for each earlier wait since the last success, four times at most. */
  function Backoff(k: nat): nat {
    5 * Pow2(Min(k, 4))
  }

  datatype Logged = Logged(delay: nat, connected: bool)

  /** In seconds. */
  lemma BackoffNumbers(k: nat)
    ensures Backoff(k) ==
            if k == 0 then 5 else if k == 1 then 10 else if k == 2 then 20 else if k == 3 then 40 else 80
  {
    PowValues();
    assert Pow2(3) == 2 * Pow2(2);
  }

  lemma Doubling(k: nat)
    ensures Backoff(k + 1) == if Backoff(k) < 60 then 2 * Backoff(k) else Backoff(k)
  {
    PowValues();
    assert Pow2(3) == 2 * Pow2(2);
    if k >= 4 {
      assert Min(k, 4) == 4 == Min(k + 1, 4);
    } else {
      assert Pow2(k + 1) == 2 * Pow2(k);
    }
  }

  /** The comment on the wait promises at most sixty seconds; that is so for the first four waits
      after a success and for no later one. */
  lemma SixtySecondCap(k: nat)
    ensures Backoff(k) <= 60 <==> k < 4
    ensures k >= 4 ==> Backoff(k) == 80
  {
    PowValues();
    assert Pow2(3) == 2 * Pow2(2);
  }

  /** The session state the supervisor writes. */
  class DtlsState {
    var setupChan: Channel
    var connected: bool
    var cipherSuite: string

    constructor (suite: string)
      ensures setupChan.Open() && !connected && cipherSuite == suite
    {
      setupChan, connected, cipherSuite := Channel(0), false, suite;
    }

    /** closeSetup: the first call closes the channel, later ones do nothing. */
    method CloseSetup(done: bool) returns (now: bool)
      requires setupChan.closes == if done then 1 else 0
      modifies this`setupChan
      ensures now && setupChan.closes == 1
    {
      if !done {
        setupChan := setupChan.Close();
      }
      now := true;
    }
  }

  /** One turn up to its wait, if it has one: over says that it has none. delay is what will be waited. */
  method Attempt(s: DtlsState, turn: Turn, setupClosed: bool, before: nat)
    returns (closed: bool, delay: nat, over: bool)
    requires s.setupChan.closes == (if setupClosed then 1 else 0) && !s.connected
    modifies s
    ensures closed && s.setupChan.closes == 1 && (over <==> !turn.Waits())
    ensures delay == if turn.Lost? || turn.ClosedWhileUp? then 5 else before
    ensures s.connected <==> turn.ClosedWhileUp?
    ensures turn.Lost? ==> s.cipherSuite == ""
    ensures turn.ClosedWhileUp? ==> s.cipherSuite == match turn.suite case Some(n) => n case None => ""
    ensures !turn.Lost? && !turn.ClosedWhileUp? ==> s.cipherSuite == old(s.cipherSuite)
  {
    delay, over := before, false;
    closed := s.CloseSetup(setupClosed);
    match turn {
      case CloseSeen =>
        over := true;
      case DialFailed(_) =>
      case HandshakeFailed(_) =>
      case ClosedWhileUp(suite) =>
        s.connected := true;
        s.cipherSuite := if suite.Some? then suite.value else "";
        delay, over := 5, true;
      case Lost(suite, _) =>
        s.connected := true;
        s.cipherSuite := if suite.Some? then suite.value else "";
        delay := 5;
        s.connected := false;
        s.cipherSuite := "";
    }
  }

  /** Any finite run. left says whether the goroutine has returned. s holds what the goroutine itself
      writes; closing the DTLS session may clear the flag and the name behind its back, which is the
      business of DtlsLifetime. */
  method Supervise(s: DtlsState, turns: seq<Turn>) returns (waits: seq<Logged>, left: bool, ghost used: nat)
    requires s.setupChan.Open() && !s.connected
    modifies s
    ensures used <= |turns| && (left || used == |turns|)
    ensures left <==> exists i :: 0 <= i < |turns| && turns[i].Ends()
    ensures left ==> used > 0 && turns[used - 1].Ends() && s.setupChan.closes == 1
    ensures forall i :: 0 <= i < used - 1 ==> !turns[i].Ends()
    ensures s.setupChan.closes <= 1
    ensures used > 0 ==> s.setupChan.closes == 1
    ensures |waits| == if used > 0 && !turns[used - 1].Waits() then used - 1 else used
    ensures forall i :: 0 <= i < |waits| ==> turns[i].Waits() && !waits[i].connected
    ensures forall i: nat, j: nat :: i < |waits| && LastLost(turns, j, i) ==> waits[i].delay == Backoff(i - j)
    ensures forall i: nat :: i < |waits| && NoneLost(turns, i) ==> waits[i].delay == Backoff(i)
    ensures !left ==> !s.connected
    ensures used > 0 && turns[used - 1].Lost? ==> !s.connected && s.cipherSuite == ""
    ensures used > 0 && turns[used - 1].ClosedWhileUp? ==>
              s.connected && s.cipherSuite == match turns[used - 1].suite case Some(n) => n case None => ""
  {
    hide Backoff, LastLost, NoneLost, Since;
    var setupClosed := false;
    var delay := 5;
    waits, left, used := [], false, 0;
    assert Backoff(0) == 5 by { BackoffNumbers(0); }
    SinceIs(turns);
    var i := 0;
    while i < |turns|
      invariant 0 <= i <= |turns| && used == i && !left
      invariant forall j :: 0 <= j < i ==> !turns[j].Ends()
      invariant s.setupChan.closes == (if setupClosed then 1 else 0) && (i > 0 ==> setupClosed)
      invariant delay == Backoff(if i == 0 then 0 else Since(turns, i - 1) + 1) && !s.connected
      invariant i > 0 && turns[i - 1].Lost? ==> s.cipherSuite == ""
      invariant |waits| == i && forall j :: 0 <= j < i ==>
                                turns[j].Waits() && waits[j] == Logged(Backoff(Since(turns, j)), false)
    {
      var turn := turns[i];
      i := i + 1;
      used := i;
      var over;
      setupClosed, delay, over := Attempt(s, turn, setupClosed, delay);
      if over {
        left := true;
        return;
      }
      SinceStep(turns, i - 1);
      waits := waits + [Logged(delay, s.connected)];
      if turn.wait.SessionClosed? {
        left := true;
        return;
      }
      Doubling(Since(turns, i - 1));
      if delay < 60 {
        delay := delay * 2;
      }
    }
  }

  /** Waits before the one of turn i and since the last success. */
  ghost function Since(turns: seq<Turn>, i: nat): nat
    requires i < |turns|
  {
    if turns[i].Lost? || i == 0 then 0 else Since(turns, i - 1) + 1
  }

  lemma SinceStep(turns: seq<Turn>, i: nat)
    requires i < |turns|
    ensures Since(turns, i) == if turns[i].Lost? || i == 0 then 0 else Since(turns, i - 1) + 1
  {
  }

  lemma SinceIs(turns: seq<Turn>)
    ensures forall i: nat, j: nat :: LastLost(turns, j, i) ==> Since(turns, i) == i - j
    ensures forall i: nat :: NoneLost(turns, i) ==> Since(turns, i) == i
  {
    forall i: nat, j: nat | LastLost(turns, j, i) ensures Since(turns, i) == i - j {
      SinceLost(turns, j, i);
    }
    forall i: nat | NoneLost(turns, i) ensures Since(turns, i) == i {
      SinceStart(turns, i);
    }
  }

  lemma {:induction false} SinceLost(turns: seq<Turn>, j: nat, i: nat)
    requires LastLost(turns, j, i)
    ensures Since(turns, i) == i - j
  {
    if j < i { SinceLost(turns, j, i - 1); }
  }

  lemma {:induction false} SinceStart(turns: seq<Turn>, i: nat)
    requires NoneLost(turns, i)
    ensures Since(turns, i) == i
  {
    if i > 0 { SinceStart(turns, i - 1); }
  }
}
