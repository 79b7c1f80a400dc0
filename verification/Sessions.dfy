/** Session generations. A reconnect may install a new session while goroutines of the old one
    are still to close it; each method here is one atomic step, and any order of them may occur.
    Session objects are records in a store, referred to by generation. */
module Sessions {
  import opened Wrappers

  /** closes counts the closings of a channel; a second one would panic. */
  datatype Channel = Channel(closes: nat)
  {
    predicate Open() {
      closes == 0
    }

    function Close(): Channel {
      Channel(closes + 1)
    }
  }

  datatype DtlsSession = DtlsSession(once: bool, closeChan: Channel)

  datatype ConnSession = ConnSession(once: bool, closeChan: Channel, dSess: DtlsSession, dtlsConnected: bool,
                                     cipherSuite: string)
  {
    /** Each channel is closed exactly when its once-flag is set, and then once. */
    predicate Consistent() {
      && closeChan.closes == (if once then 1 else 0)
      && dSess.closeChan.closes == (if dSess.once then 1 else 0)
    }
  }

  /** A session whose DTLS part has been closed. */
  function DtlsClosed(c: ConnSession, isCurrent: bool): ConnSession {
    if c.dSess.once then c
    else
      var d := c.(dSess := DtlsSession(true, c.dSess.closeChan.Close()));
      if isCurrent then d.(dtlsConnected := false, cipherSuite := "") else d
  }

  /** A session that has been closed, and its DTLS part too if that was up. */
  function Closed(c: ConnSession, isCurrent: bool): ConnSession {
    if c.once then c
    else (if c.dtlsConnected then DtlsClosed(c, isCurrent) else c).(once := true, closeChan := c.closeChan.Close())
  }

  const NEW_SESSION := ConnSession(false, Channel(0), DtlsSession(false, Channel(0)), false, "")

  /** The process-wide session object, with the sessions goroutines may still hold. */
  class Session {
    var activeClose: bool
    /** the current session */
    var cSess: Option<nat>
    /** every session installed, oldest first */
    var store: seq<ConnSession>
    /** the global channel made along with each session; the newest is the one in use */
    var globals: seq<Channel>

    ghost predicate Valid() reads this {
      && |globals| == |store|
      && (forall g :: 0 <= g < |store| ==> store[g].Consistent() && globals[g].closes <= 1)
      && (cSess.Some? ==> cSess.value + 1 == |store| && !store[cSess.value].once)
      && (cSess.None? ==> store == [] || store[|store| - 1].once)
      && (store != [] ==> globals[|store| - 1].closes == if cSess.Some? then 0 else 1)
    }

    constructor ()
      ensures Valid() && store == [] && cSess == None && !activeClose
    {
      activeClose, cSess, store, globals := false, None, [], [];
    }

    /** Installs a new session, whether or not the previous one has been closed. */
    method NewConnSession() returns (g: nat)
      requires Valid()
      modifies this
      ensures Valid() && g == |old(store)| && store == old(store) + [NEW_SESSION]
      ensures store[g].closeChan.Open() && store[g].dSess.closeChan.Open() && !store[g].dtlsConnected
      ensures cSess == Some(g) && !activeClose && globals == old(globals) + [Channel(0)]
    {
      g := |store|;
      store := store + [NEW_SESSION];
      cSess := Some(g);
      activeClose := false;
      globals := globals + [Channel(0)];
    }

    /** DtlsSession.Close: its own channel once; the negotiated state only if the current session
        still owns it. */
    method CloseDtls(g: nat)
      requires Valid() && g < |store|
      modifies this`store
      ensures Valid() && store == old(store)[g := DtlsClosed(old(store)[g], cSess == Some(g))]
      ensures store[g].dSess.closeChan.closes == 1 && store[g].closeChan == old(store)[g].closeChan
      ensures if old(store)[g].dSess.closeChan.Open() && cSess == Some(g)
              then !store[g].dtlsConnected && store[g].cipherSuite == ""
              else store[g].dtlsConnected == old(store)[g].dtlsConnected
                   && store[g].cipherSuite == old(store)[g].cipherSuite
    {
      var c := store[g];
      if !c.dSess.once {
        c := c.(dSess := DtlsSession(true, c.dSess.closeChan.Close()));
        if cSess == Some(g) {
          c := c.(dtlsConnected := false, cipherSuite := "");
        }
        store := store[g := c];
      }
    }

    /** ConnSession.Close: at most once; the global state is cleaned only if it still points to this
        session. */
    method CloseConn(g: nat)
      requires Valid() && g < |store|
      modifies this`store, this`cSess, this`globals
      ensures Valid() && store == old(store)[g := Closed(old(store)[g], old(cSess) == Some(g))]
      ensures store[g].closeChan.closes == 1
      ensures old(store)[g].closeChan.Open() ==>
                store[g].dSess.closeChan.closes == if old(store)[g].dtlsConnected then 1
                                                   else old(store)[g].dSess.closeChan.closes
      ensures !old(store)[g].closeChan.Open() ==> store == old(store)
      ensures old(cSess) != Some(g) ==> cSess == old(cSess) && globals == old(globals)
      ensures old(cSess) == Some(g) ==> cSess == None && globals == old(globals)[g := Channel(1)]
    {
      if !store[g].once {
        if store[g].dtlsConnected {
          CloseDtls(g);
        }
        var c := store[g];
        store := store[g := c.(once := true, closeChan := c.closeChan.Close())];
        if cSess == Some(g) {
          cSess := None;
          var newest := |globals| - 1;
          globals := globals[newest := globals[newest].Close()];
        }
      }
    }

    /** The DTLS channel of a session reports its state. */
    method SetDtls(g: nat, connected: bool, suite: string)
      requires Valid() && g < |store|
      modifies this`store
      ensures Valid() && store == old(store)[g := old(store)[g].(dtlsConnected := connected, cipherSuite := suite)]
    {
      store := store[g := store[g].(dtlsConnected := connected, cipherSuite := suite)];
    }

    /** The user disconnects: the current session, if any, is closed. */
    method Disconnect()
      requires Valid()
      modifies this
      ensures Valid() && activeClose && cSess == None
      ensures match old(cSess)
              case None => store == old(store) && globals == old(globals)
              case Some(g) =>
                store == old(store)[g := Closed(old(store)[g], true)] && globals == old(globals)[g := Channel(1)]
    {
      activeClose := true;
      if cSess.Some? {
        CloseConn(cSess.value);
      }
    }
  }

  /** One atomic step; sessions are named by generation. */
  datatype Step = Install | CloseConn(generation: nat) | CloseDtls(generation: nat)
                | Dtls(generation: nat, connected: bool, suite: string) | UserDisconnect
  {
    /** Does the step concern generation g? */
    predicate Touches(g: nat) {
      !Install? && (UserDisconnect? || generation == g)
    }
  }

  /** Every interleaving of installs and arbitrarily late closes. No channel is closed twice; there
      is no current session exactly when there is none or the newest is closed; the global channel
      is open exactly while there is one. A current session stays current, with all its state,
      under any steps that install nothing and name only other generations. */
  method Run(sess: Session, steps: seq<Step>)
    requires sess.Valid()
    modifies sess
    ensures sess.Valid() && |sess.store| >= |old(sess.store)|
    ensures forall g :: 0 <= g < |sess.store| ==>
              && sess.store[g].closeChan.closes <= 1 && sess.store[g].dSess.closeChan.closes <= 1
              && sess.globals[g].closes <= 1
    ensures sess.cSess == None <==> sess.store == [] || sess.store[|sess.store| - 1].once
    ensures sess.cSess.Some? ==> sess.globals[|sess.store| - 1].Open()
    ensures forall g: nat :: old(sess.cSess) == Some(g) && Install !in steps
                             && (forall k :: 0 <= k < |steps| ==> !steps[k].Touches(g)) ==>
              sess.cSess == Some(g) && sess.store[g] == old(sess.store[g]) && sess.globals[g] == old(sess.globals[g])
  {
    hide Closed, DtlsClosed;
    var i := 0;
    while i < |steps|
      invariant 0 <= i <= |steps| && sess.Valid() && |sess.store| >= |old(sess.store)|
      invariant forall g: nat :: old(sess.cSess) == Some(g) && Install !in steps[..i]
                                 && (forall k :: 0 <= k < i ==> !steps[k].Touches(g)) ==>
                  && sess.cSess == Some(g) && sess.store[g] == old(sess.store[g])
                  && sess.globals[g] == old(sess.globals[g])
    {
      assert steps[..i + 1] == steps[..i] + [steps[i]];
      match steps[i] {
        case Install =>
          var _ := sess.NewConnSession();
        case CloseConn(g) =>
          if g < |sess.store| { sess.CloseConn(g); }
        case CloseDtls(g) =>
          if g < |sess.store| { sess.CloseDtls(g); }
        case Dtls(g, connected, suite) =>
          if g < |sess.store| { sess.SetDtls(g, connected, suite); }
        case UserDisconnect =>
          sess.Disconnect();
      }
      i := i + 1;
    }
    assert steps[..i] == steps;
  }
}
