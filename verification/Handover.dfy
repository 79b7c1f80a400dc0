/** The one route socket under several session generations. ResetRoutes does not ask whose routes they
    are: what the late exit of an old session's tunnel writer does to the session that has replaced
    it. */
module Handover {
  import opened Bits
  import opened Wrappers
  import opened RouteMessage
  import opened RouteBatch
  import opened RouteSocket
  import Sessions

  /** What may happen once a session has its routes: names are resolved, the tunnel writer of this or an
      older session exits, the user disconnects. */
  datatype Event =
    | Resolved(ips: seq<Option<seq<byte>>>, throughTunnel: bool)
    | WriterExits(generation: nat)
    | UserDisconnect

  function Count(events: seq<Event>): nat {
    if events == [] then 0
    else Count(events[1..]) + if events[0].Resolved? then |events[0].ips| else 0
  }

  predicate Undisturbed(events: seq<Event>) {
    forall i :: 0 <= i < |events| ==> events[i].Resolved?
  }

  /** Neither the user nor the session's own writer has ended it. */
  predicate Unended(events: seq<Event>, g: nat) {
    forall i :: 0 <= i < |events| ==> !events[i].UserDisconnect? && events[i] != WriterExits(g)
  }

  /** The server is reached by the local gateway, and all split routes are there. */
  predicate Present(t: Table, p: Setup) {
    var k := Key(Canonical(p.serverAddress), None);
    && k in t && t[k] == Entry(p.localIndex % 0x1_0000, Canonical(p.localGateway))
    && (forall i :: 0 <= i < |p.includes| ==> p.includes[i].Target() in t)
    && (forall i :: 0 <= i < |p.excludes| ==> p.excludes[i].Target() in t)
  }

  lemma PresentKept(p: Setup, t: Table, inst: seq<Route>, t2: Table, inst2: seq<Route>)
    requires Kept(t, inst, t2, inst2) && Present(t, p) && p.Server() in inst
    ensures Present(t2, p) && p.Server() in inst2
  {
    hide KeyOf, EntryOf, Canonical, EffectiveMask;
    p.Fields();
  }

  /** The deferred function of a session's tunnel writer. */
  method TunnelWriterExits(sess: Sessions.Session, sock: Socket, g: nat)
    requires sess.Valid() && g < |sess.store| && |sock.installed| <= 0xffff_ffff
    modifies sess, sock, sock.kernel
    ensures sess.Valid() && sess.activeClose == old(sess.activeClose) && |sess.store| == |old(sess.store)|
    ensures sess.cSess == if old(sess.cSess) == Some(g) then None else old(sess.cSess)
    ensures sock.TroubleKept() && (sock.open ==> old(sock.open))
    ensures !old(sock.open) || old(sess.activeClose) ==> sock.kernel.table == old(sock.kernel.table)
    ensures old(sess.activeClose) ==> sock.installed == old(sock.installed) && sock.open == old(sock.open)
    ensures !old(sess.activeClose) ==> !sock.open && sock.installed == []
    ensures !old(sess.activeClose) && old(sock.open && AllBuilt(sock.installed))
            && sock.Untroubled() && sock.kernel.Willing() ==>
              forall i :: 0 <= i < |old(sock.installed)| ==> KeyOf(old(sock.installed)[i]) !in sock.kernel.table
  {
    hide KeyOf, AllBuilt;
    if !sess.activeClose {
      sock.ResetRoutes(sock.kernel.table);
    }
    sess.CloseConn(g);
  }

  /** rpc's DisConnect. */
  method Disconnect(sess: Sessions.Session, sock: Socket)
    requires sess.Valid() && |sock.installed| <= 0xffff_ffff
    modifies sess, sock, sock.kernel
    ensures sess.Valid() && sess.activeClose && sess.cSess == None && |sess.store| == |old(sess.store)|
    ensures sock.TroubleKept() && (sock.open ==> old(sock.open)) && |sock.installed| <= |old(sock.installed)|
    ensures !old(sock.open) ==> sock.kernel.table == old(sock.kernel.table)
    ensures if old(sess.cSess).Some? then !sock.open && sock.installed == [] else sock.installed == old(sock.installed)
    ensures old(sess.cSess).Some? && old(sock.open && AllBuilt(sock.installed))
            && sock.Untroubled() && sock.kernel.Willing() ==>
              forall i :: 0 <= i < |old(sock.installed)| ==> KeyOf(old(sock.installed)[i]) !in sock.kernel.table
  {
    hide KeyOf, AllBuilt;
    if sess.cSess.Some? {
      sock.ResetRoutes(sock.kernel.table);
    }
    sess.Disconnect();
  }

  /** How things stand after events that were calm or not. */
  ghost predicate Standing(sock: Socket, p: Setup, calm: bool) reads sock, sock.kernel {
    && !sock.rollbackFailed && AllBuilt(sock.installed) && sock.open == calm
    && (calm ==> Present(sock.kernel.table, p) && p.Server() in sock.installed)
    && (!calm ==> KeyOf(p.Server()) !in sock.kernel.table)
  }

  /** One event for a session whose routes are in place, or for what is left of it. */
  method Happens(sess: Sessions.Session, sock: Socket, p: Setup, g: nat, e: Event, ghost calm: bool)
    requires sess.Valid() && |sess.store| == g + 1
    requires |sock.installed| + (if e.Resolved? then |e.ips| else 0) <= 0xffff_ffff
    requires e.WriterExits? ==> e.generation <= g
    requires calm ==> !sess.activeClose && sess.cSess == Some(g)
    modifies sess, sock, sock.kernel
    ensures sess.Valid() && |sess.store| == g + 1
    ensures |sock.installed| <= |old(sock.installed)| + if e.Resolved? then |e.ips| else 0
    ensures sess.cSess == if e.UserDisconnect? || e == WriterExits(g) then None else old(sess.cSess)
    ensures e.Resolved? ==> sess.activeClose == old(sess.activeClose)
    ensures sock.TroubleKept()
    ensures old(Standing(sock, p, calm)) && sock.kernel.Willing() ==> Standing(sock, p, calm && e.Resolved?)
  {
    hide KeyOf, EntryOf, AllBuilt, Present, Kept, Owned;
    ghost var t, inst := sock.kernel.table, sock.installed;
    ghost var standing := Standing(sock, p, calm);
    NothingBuilt();
    match e {
      case Resolved(ips, throughTunnel) =>
        var _ := sock.AddDynamicRoutes(ips, throughTunnel, t);
        if standing && calm && sock.kernel.Willing() {
          PresentKept(p, t, inst, sock.kernel.table, sock.installed);
        }
      case WriterExits(generation) =>
        TunnelWriterExits(sess, sock, generation);
      case UserDisconnect =>
        Disconnect(sess, sock);
    }
  }

  /** The session is installed and asks for its routes. */
  method Begins(sess: Sessions.Session, sock: Socket, p: Setup) returns (g: nat, up: bool)
    requires sess.Valid() && p.Valid()
    modifies sess, sock, sock.kernel
    ensures sess.Valid() && g == |old(sess.store)| && |sess.store| == g + 1
    ensures up ==> sess.cSess == Some(g) && !sess.activeClose
    ensures |sock.installed| <= |old(sock.installed)| + p.Size() && sock.TroubleKept()
    ensures up && !old(sock.rollbackFailed) && old(AllBuilt(sock.installed)) && sock.kernel.Willing() ==>
              Standing(sock, p, true)
    ensures !up ==> !AllBuilt([p.Server()] + p.Splits()) || !sock.kernel.Flawless()
  {
    hide KeyOf, EntryOf, AllBuilt, Present, Owned, Keys;
    g := sess.NewConnSession();
    var failed := sock.SetRoutes(p, sock.kernel.table);
    up := !failed;
    if failed {
      sess.CloseConn(g);
    } else if sock.Untroubled() {
      HasAll(sock.kernel.table, p);
    }
  }

  lemma NoEvents(g: nat)
    ensures Undisturbed([]) && Unended([], g)
  {
  }

  lemma OneMore(events: seq<Event>, e: Event, g: nat)
    ensures Undisturbed(events + [e]) <==> Undisturbed(events) && e.Resolved?
    ensures Unended(events + [e], g) <==> Unended(events, g) && !e.UserDisconnect? && e != WriterExits(g)
    ensures Undisturbed(events) ==> Unended(events, g)
  {
    assert forall i :: 0 <= i < |events| ==> (events + [e])[i] == events[i];
    assert (events + [e])[|events|] == e;
  }

  /** A new session takes over, whatever the socket still has of older ones, and any events follow. Its
      routes are there in the end if and only if no tunnel writer, of whatever generation, has exited and
      the user has not disconnected; it is the current session if and only if neither the user nor its own
      writer has ended it. So a session is current without its routes exactly after the exit of an older
      session's writer. */
  method TakesOver(sess: Sessions.Session, sock: Socket, p: Setup, events: seq<Event>) returns (g: nat, up: bool)
    requires sess.Valid() && p.Valid()
    requires |sock.installed| + p.Size() + Count(events) <= 0xffff_ffff
    requires forall i :: 0 <= i < |events| && events[i].WriterExits? ==> events[i].generation <= |sess.store|
    modifies sess, sock, sock.kernel
    ensures sess.Valid() && g == |old(sess.store)| && |sess.store| == g + 1
    ensures sock.TroubleKept() && |sock.installed| <= |old(sock.installed)| + p.Size() + Count(events)
    ensures up ==> (sess.cSess == Some(g) <==> Unended(events, g))
    ensures up && !old(sock.rollbackFailed) && old(AllBuilt(sock.installed)) && sock.kernel.Willing() ==>
              && (Undisturbed(events) ==> Present(sock.kernel.table, p) && sock.open)
              && (!Undisturbed(events) ==> KeyOf(p.Server()) !in sock.kernel.table && !sock.open)
              && AllBuilt(sock.installed)
    ensures !up ==> !AllBuilt([p.Server()] + p.Splits()) || !sock.kernel.Flawless()
  {
    hide KeyOf, EntryOf, AllBuilt, Present, Undisturbed, Unended;
    ghost var clean := !sock.rollbackFailed && AllBuilt(sock.installed);
    g, up := Begins(sess, sock, p);
    if !up {
      return;
    }
    NoEvents(g);
    var i := 0;
    while i < |events|
      invariant 0 <= i <= |events| && sess.Valid() && |sess.store| == g + 1
      invariant |sock.installed| + Count(events[i..]) <= |old(sock.installed)| + p.Size() + Count(events)
      invariant sock.TroubleKept()
      invariant sess.cSess == if Unended(events[..i], g) then Some(g) else None
      invariant Undisturbed(events[..i]) ==> !sess.activeClose
      invariant clean && sock.kernel.Willing() ==> Standing(sock, p, Undisturbed(events[..i]))
    {
      assert events[i..][1..] == events[i + 1..];
      assert events[..i + 1] == events[..i] + [events[i]];
      OneMore(events[..i], events[i], g);
      Happens(sess, sock, p, g, events[i], Undisturbed(events[..i]));
      i := i + 1;
    }
    assert events[..i] == events;
  }

  lemma HasAll(t: Table, p: Setup)
    requires var k := Key(Canonical(p.serverAddress), None);
             k in t && t[k] == Entry(p.localIndex % 0x1_0000, Canonical(p.localGateway))
    requires forall i :: 0 <= i < |p.includes| ==> p.includes[i].Target() in t
    requires forall i :: 0 <= i < |p.excludes| ==> p.excludes[i].Target() in t
    ensures Present(t, p)
  {
  }

  /** The failing run: a session connects and is lost, another takes over, and only then the first one's
      tunnel writer exits. The second session is current and has lost its routes and its socket. */
  method LateExit(sess: Sessions.Session, sock: Socket, first: Setup, second: Setup) returns (g: nat, up: bool)
    requires sess.Valid() && first.Valid() && second.Valid()
    requires sock.installed == [] && !sock.rollbackFailed && first.Size() + second.Size() <= 0xffff_ffff
    modifies sess, sock, sock.kernel
    ensures up ==> sess.cSess == Some(g)
    ensures up && sock.kernel.Willing() ==> KeyOf(second.Server()) !in sock.kernel.table && !sock.open
    ensures !up ==>
              || !AllBuilt([first.Server()] + first.Splits()) || !AllBuilt([second.Server()] + second.Splits())
              || !sock.kernel.Flawless()
  {
    hide KeyOf, EntryOf, AllBuilt, Present;
    NothingBuilt();
    var lost;
    lost, up := TakesOver(sess, sock, first, []);
    if !up {
      return lost, false;
    }
    sess.CloseConn(lost);
    assert [WriterExits(lost)][1..] == [];
    g, up := TakesOver(sess, sock, second, [WriterExits(lost)]);
    assert !Undisturbed([WriterExits(lost)]) by { assert [WriterExits(lost)][0].WriterExits?; }
  }
}
