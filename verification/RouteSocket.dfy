/** The route transaction pipeline: requests are numbered, written to the kernel, matched with
    their answers, recorded, and rolled back on failure. The kernel is any that obeys Kernel. */
module RouteSocket {
  import opened Bits
  import opened Wrappers
  import opened RouteMessage
  import opened RouteAcks
  import opened RouteBatch

  const ENOENT: int32 := 2
  const ESRCH: int32 := 3
  const EEXIST: int32 := 17

  /** Errors that only say that the table is as the request wants it. */
  predicate Benign(kind: Kind, errno: int32) {
    (kind.Add? && errno == EEXIST) || (kind.Delete? && (errno == ENOENT || errno == ESRCH))
  }

  function FateOf(kind: Kind, errno: int32): Fate {
    if errno == 0 then Done else if Benign(kind, errno) then Skipped else Failed
  }

  /** Which errors are benign, and what becomes of a request, by number. */
  lemma FateNumbers(e: int32)
    ensures FateOf(Add, e) == if e == 0 then Done else if e == 17 then Skipped else Failed
    ensures FateOf(Delete, e) == if e == 0 then Done else if e == 2 || e == 3 then Skipped else Failed
  {
  }

  // ----- the kernel

  /** Every record for one of our requests carries what was decided for it. */
  predicate Faithful(input: seq<ReadResult>, verdicts: map<int32, int32>) {
    forall i :: 0 <= i < |input| && input[i].Bytes? ==>
      var records := Records(input[i].data);
      forall j :: 0 <= j < |records| && records[j].seqno in verdicts ==> records[j].errno == verdicts[records[j].seqno]
  }

  /** Every wanted number is carried by some record of some read. */
  ghost predicate Answered(input: seq<ReadResult>, wanted: set<int32>) {
    forall s :: s in wanted ==> exists i, j :: HeaderAt(input, i, j) && HeaderOf(input, i, j).seqno == s
  }

  /** The routing table behind the socket. No other process edits it. A request may be refused by
      the write itself or by a later answer, and may fail for reasons of the kernel's own; a
      request that fails changes nothing. */
  class Kernel {
    var table: Table
    /** errno, zero for success, decided for each request accepted since the last drain */
    var verdicts: map<int32, int32>
    /** an answer never came */
    ghost var silent: bool
    /** a DELETE failed for a reason of the kernel's own */
    ghost var failedDelete: bool
    /** an ADD failed for a reason of the kernel's own */
    ghost var failedAdd: bool
    /** the socket could not be opened */
    ghost var openFailed: bool
    /** the socket could not be drained */
    ghost var drainFailed: bool

    constructor (table: Table)
      ensures this.table == table && verdicts == map[] && Willing() && !failedAdd && !openFailed
    {
      this.table, verdicts, silent, drainFailed := table, map[], false, false;
      failedDelete, failedAdd, openFailed := false, false, false;
    }

    /** Answers come, DELETEs do not fail, the socket is drained: nothing stands in the way of taking
        routes back. */
    ghost predicate Willing() reads this {
      !silent && !failedDelete && !drainFailed
    }

    /** Nothing stands in the way of adding routes either. */
    ghost predicate Flawless() reads this {
      Willing() && !failedAdd && !openFailed
    }

    /** May fail. */
    method Open() returns (ok: bool)
      modifies this`openFailed
      ensures openFailed == (old(openFailed) || !ok)
    {
      ok := *;
      openFailed := openFailed || !ok;
    }

    /** Discards unread answers; may fail. */
    method Drain() returns (ok: bool)
      modifies this`verdicts, this`drainFailed
      ensures verdicts == map[] && drainFailed == (old(drainFailed) || !ok)
    {
      verdicts := map[];
      ok := *;
      drainFailed := drainFailed || !ok;
    }

    /** Accepts (zero) or refuses a request, of which it reads the message only. own says that the kernel
        has a reason of its own to fail it; without one the table alone decides. */
    method Write(data: seq<byte>, ghost req: Request) returns (e: int32, ghost fate: Fate, ghost own: bool)
      requires data == req.data && Carries(req)
      modifies this`table, this`verdicts, this`failedDelete, this`failedAdd
      ensures LawfulStep(old(table), req.route, fate) && table == TableStep(old(table), req.route, fate)
      ensures e != 0 ==> verdicts == old(verdicts) && fate == FateOf(req.route.kind, e)
      ensures e == 0 ==> req.seqno in verdicts && verdicts == old(verdicts)[req.seqno := verdicts[req.seqno]]
                         && fate == FateOf(req.route.kind, verdicts[req.seqno])
      ensures own <==> fate.Failed?
      ensures !own ==> fate == if req.route.kind.Add? <==> KeyOf(req.route) in old(table) then Skipped else Done
      ensures failedDelete == (old(failedDelete) || (req.route.kind.Delete? && own))
      ensures failedAdd == (old(failedAdd) || (req.route.kind.Add? && own))
    {
      hide ParseRtMsg, Canonical, EffectiveMask;
      var m := ParseRtMsg(data).value;
      var adding, key := m.kind == RTM_ADD, Key(m.dst, m.mask);
      var reason: int32 := *;
      var gone: bool := *;
      var late: bool := *;
      var errno: int32 := 0;
      own := false;
      if reason != 0 && !Benign(if adding then Add else Delete, reason) {
        errno, own := reason, true;
      } else if adding && key in table {
        errno := EEXIST;
      } else if !adding && key !in table {
        errno := if gone then ENOENT else ESRCH;
      } else if adding {
        table := table[key := Entry(m.index, m.gateway)];
      } else {
        table := table - {key};
      }
      fate := FateOf(req.route.kind, errno);
      failedDelete := failedDelete || (!adding && own);
      failedAdd := failedAdd || (adding && own);
      if errno != 0 && !late {
        e := errno;
      } else {
        verdicts := verdicts[m.seqno := errno];
        e := 0;
      }
    }

    /** What the next reads give: answers in any order and grouping, with any other traffic. */
    method Deliver(wanted: set<int32>) returns (input: seq<ReadResult>)
      modifies this`silent
      ensures Faithful(input, verdicts)
      ensures silent <==> old(silent) || Broken in input || !Answered(input, wanted)
    {
      input := *;
      if !Faithful(input, verdicts) {
        input := [];
      }
      silent := silent || Broken in input || !Answered(input, wanted);
    }
  }

  // ----- requests

  datatype Request = Request(seqno: int32, route: Route, data: seq<byte>)

  function KindCode(kind: Kind): byte {
    if kind.Add? then RTM_ADD else RTM_DELETE
  }

  /** What the kernel reads in the message is the request. */
  predicate Carries(req: Request) {
    var r := req.route;
    ParseRtMsg(req.data) == Some(Message(KindCode(r.kind), req.seqno, r.ifidx % 0x1_0000, Canonical(r.dst),
                                         EffectiveMask(r.mask), Canonical(r.gateway)))
  }

  /** Its bytes say who asks what under which number: 1 to add, 2 to delete. */
  predicate Numbered(req: Request, pid: int32) {
    && |req.data| >= 92 && req.data[3] == (if req.route.kind.Add? then 1 else 2)
    && Holds32(req.data, 16, pid) && Holds32(req.data, 20, req.seqno)
  }

  function Routes(reqs: seq<Request>): (rs: seq<Route>)
    ensures |rs| == |reqs| && forall i :: 0 <= i < |reqs| ==> rs[i] == reqs[i].route
  {
    seq(|reqs|, i requires 0 <= i < |reqs| => reqs[i].route)
  }

  function Outcome(req: Request, results: Results): Fate {
    if req.seqno in results then FateOf(req.route.kind, results[req.seqno]) else Failed
  }

  function Outcomes(reqs: seq<Request>, results: Results): (fs: seq<Fate>)
    ensures |fs| == |reqs| && forall i :: 0 <= i < |reqs| ==> fs[i] == Outcome(reqs[i], results)
  {
    seq(|reqs|, i requires 0 <= i < |reqs| => Outcome(reqs[i], results))
  }

  ghost function Wanted(reqs: seq<Request>): set<int32> {
    set i | 0 <= i < |reqs| :: reqs[i].seqno
  }

  function CountAdds(rs: seq<Route>): (n: nat)
  {
    if rs == [] then 0 else CountAdds(rs[..|rs| - 1]) + if rs[|rs| - 1].kind.Add? then 1 else 0
  }

  lemma {:induction false} CountPrefix(rs: seq<Route>, i: nat)
    requires i <= |rs|
    ensures CountAdds(rs[..i]) <= CountAdds(rs)
    decreases |rs|
  {
    if i == |rs| {
      assert rs[..i] == rs;
    } else {
      CountPrefix(rs[..|rs| - 1], i);
      assert rs[..|rs| - 1][..i] == rs[..i];
    }
  }

  lemma {:induction false} AddedCounts(rs: seq<Route>, fs: seq<Fate>)
    requires |rs| == |fs|
    ensures |Added(rs, fs)| <= CountAdds(rs)
  {
    if rs != [] { AddedCounts(rs[..|rs| - 1], fs[..|fs| - 1]); }
  }

  lemma {:induction false} DeletesCountNone(rs: seq<Route>)
    requires forall i :: 0 <= i < |rs| ==> rs[i].kind.Delete?
    ensures CountAdds(rs) == 0
  {
    if rs != [] { DeletesCountNone(rs[..|rs| - 1]); }
  }

  lemma {:induction false} InstalledSize(inst: seq<Route>, rs: seq<Route>, fs: seq<Fate>)
    requires |rs| == |fs|
    ensures |InstalledAfter(inst, rs, fs)| <= |inst| + CountAdds(rs)
  {
    hide Remove;
    if rs != [] { InstalledSize(inst, rs[..|rs| - 1], fs[..|fs| - 1]); }
  }

  lemma {:induction false} CountBound(rs: seq<Route>)
    ensures CountAdds(rs) <= |rs|
  {
    if rs != [] { CountBound(rs[..|rs| - 1]); }
  }

  lemma {:induction false} RemoveBuilt(inst: seq<Route>, r: Route)
    requires AllBuilt(inst)
    ensures AllBuilt(Remove(inst, r))
  {
    hide WellBuilt, SameRoute;
    if inst != [] { RemoveBuilt(inst[..|inst| - 1], r); }
  }

  lemma {:induction false} InstalledBuilt(inst: seq<Route>, rs: seq<Route>, fs: seq<Fate>)
    requires |rs| == |fs| && AllBuilt(inst) && AllBuilt(rs)
    ensures AllBuilt(InstalledAfter(inst, rs, fs))
  {
    hide WellBuilt, Remove;
    if rs != [] {
      var n := |rs| - 1;
      InstalledBuilt(inst, rs[..n], fs[..n]);
      RemoveBuilt(InstalledAfter(inst, rs[..n], fs[..n]), rs[n]);
    }
  }

  lemma RemoveStep(rs: seq<Route>, n: nat, r: Route)
    requires 0 < n <= |rs|
    ensures Remove(rs[..n], r) ==
            if SameRoute(rs[n - 1], r) then rs[..n - 1] else Remove(rs[..n - 1], r) + [rs[n - 1]]
  {
    hide SameRoute;
    assert rs[..n][..n - 1] == rs[..n - 1];
  }

  lemma RemoveNone(r: Route)
    ensures Remove([], r) == []
  {
  }

  lemma AsDeletesSnoc(a: seq<Route>, r: Route)
    ensures AsDeletes([]) == [] && AsDeletes(a + [r]) == AsDeletes(a) + [AsDelete(r)]
    ensures a + [] == a
  {
  }

  // ----- requests tried and requests written

  /** ws with fates wf are the requests of rs that were not refused by the write itself; they tell
      all that matters about rs. */
  ghost predicate Tracks(inst: seq<Route>, rs: seq<Route>, fs: seq<Fate>, ws: seq<Route>, wf: seq<Fate>) {
    && |rs| == |fs| && |ws| == |wf| <= |rs|
    && InstalledAfter(inst, rs, fs) == InstalledAfter(inst, ws, wf)
    && Added(rs, fs) == Added(ws, wf) && CountAdds(ws) <= CountAdds(rs)
  }

  lemma TracksSkip(inst: seq<Route>, rs: seq<Route>, fs: seq<Fate>, ws: seq<Route>, wf: seq<Fate>, r: Route, f: Fate)
    requires Tracks(inst, rs, fs, ws, wf) && f != Done
    ensures Tracks(inst, rs + [r], fs + [f], ws, wf)
  {
    hide Added, InstalledAfter, TableAfter, Lawful;
    SnocStep(map[], inst, rs, fs, r, f);
    assert (rs + [r])[..|rs|] == rs;
    assert Added(rs, fs) + [] == Added(rs, fs);
  }

  lemma TracksWrite(inst: seq<Route>, rs: seq<Route>, fs: seq<Fate>, ws: seq<Route>, wf: seq<Fate>, r: Route, f: Fate)
    requires Tracks(inst, rs, fs, ws, wf)
    ensures Tracks(inst, rs + [r], fs + [f], ws + [r], wf + [f])
  {
    hide Added, InstalledAfter, TableAfter, Lawful;
    SnocStep(map[], inst, rs, fs, r, f);
    SnocStep(map[], inst, ws, wf, r, f);
    assert (rs + [r])[..|rs|] == rs && (ws + [r])[..|ws|] == ws;
  }

  /** Each written request has its verdict on the way. */
  ghost predicate Pending(written: seq<Request>, wf: seq<Fate>, verdicts: map<int32, int32>) {
    && |written| == |wf|
    && forall i :: 0 <= i < |written| ==>
         written[i].seqno in verdicts && wf[i] == FateOf(written[i].route.kind, verdicts[written[i].seqno])
  }

  /** Some ADD of the batch failed. */
  ghost predicate AddFailed(rs: seq<Route>, fs: seq<Fate>) {
    exists i :: 0 <= i < |fs| <= |rs| && rs[i].kind.Add? && fs[i] == Failed
  }

  lemma FailedAdd(rs: seq<Route>, fs: seq<Fate>)
    requires |fs| <= |rs| && NoFailed(Delete, rs[..|fs|], fs) && Failed in fs
    ensures AddFailed(rs, fs) && !NoFailed(Add, rs[..|fs|], fs)
  {
    var i :| 0 <= i < |fs| && fs[i] == Failed;
    assert rs[..|fs|][i] == rs[i];
  }

  lemma NothingTried(t: Table, inst: seq<Route>, rs: seq<Route>)
    ensures Possible(t, rs, Untried) && RunTable(t, rs, Untried) == t && RunInstalled(t, inst, rs, Untried) == inst
    ensures rs == [] ==>
              && Possible(t, rs, Success([]))
              && RunTable(t, rs, Success([])) == t && RunInstalled(t, inst, rs, Success([])) == inst
  {
  }

  lemma SuccessfulRun(t: Table, inst: seq<Route>, rs: seq<Route>, fates: seq<Fate>)
    requires AllBuilt(rs) && |rs| == |fates| && Lawful(t, rs, fates) && NoFailure(fates)
    ensures Possible(t, rs, Success(fates))
    ensures RunTable(t, rs, Success(fates)) == TableAfter(t, rs, fates)
    ensures RunInstalled(t, inst, rs, Success(fates)) == InstalledAfter(inst, rs, fates)
  {
    hide Lawful, TableAfter, InstalledAfter;
  }

  lemma FailedRun(t: Table, inst: seq<Route>, rs: seq<Route>, run: BatchRun)
    requires AllBuilt(rs) && run.Failure? && |run.fates| <= |rs| && Failed in run.fates && NoFailure(run.undo)
    requires if run.applied then |run.fates| == |rs| else run.fates[|run.fates| - 1] == Failed
    requires Lawful(t, rs[..|run.fates|], run.fates)
    requires var ts := rs[..|run.fates|];
             Lawful(TableAfter(t, ts, run.fates), AsDeletes(Added(ts, run.fates)), run.undo)
    ensures Possible(t, rs, run)
    ensures |AsDeletes(Added(rs[..|run.fates|], run.fates))| == |run.undo|
    ensures var ts := rs[..|run.fates|];
            var dels := AsDeletes(Added(ts, run.fates));
            && RunTable(t, rs, run) == TableAfter(TableAfter(t, ts, run.fates), dels, run.undo)
            && RunInstalled(t, inst, rs, run) ==
               InstalledAfter(if run.applied then InstalledAfter(inst, ts, run.fates) else inst, dels, run.undo)
  {
    hide TableAfter, InstalledAfter, Added;
  }

  predicate DistinctSeqs(reqs: seq<Request>) {
    forall i, j :: 0 <= i < j < |reqs| ==> reqs[i].seqno != reqs[j].seqno
  }

  ghost predicate NoFailed(kind: Kind, rs: seq<Route>, fs: seq<Fate>) {
    |rs| == |fs| && forall i :: 0 <= i < |fs| && rs[i].kind == kind ==> fs[i] != Failed
  }

  lemma NoDoneByError(kind: Kind, e: int32)
    requires e != 0
    ensures FateOf(kind, e) == if Benign(kind, e) then Skipped else Failed
  {
  }

  /** A failure of either kind has raised its flag. */
  ghost predicate Told(failedDelete: bool, failedAdd: bool, rs: seq<Route>, fs: seq<Fate>) {
    (!failedDelete ==> NoFailed(Delete, rs, fs)) && (!failedAdd ==> NoFailed(Add, rs, fs))
  }

  lemma NoneFailed(failedDelete: bool, failedAdd: bool)
    ensures Told(failedDelete, failedAdd, [], [])
  {
  }

  lemma ToldStep(failedDelete: bool, failedAdd: bool, rs: seq<Route>, fs: seq<Fate>, r: Route, f: Fate)
    requires Told(failedDelete, failedAdd, rs, fs)
    ensures Told(failedDelete || (r.kind.Delete? && f.Failed?), failedAdd || (r.kind.Add? && f.Failed?),
                 rs + [r], fs + [f])
  {
  }

  datatype Prefix = Prefix(dst: seq<byte>, mask: seq<byte>)
  {
    function Target(): RouteBatch.Key {
      Key(Canonical(dst), EffectiveMask(Some(mask)))
    }
  }

  /** What a connection routes: the server outside the tunnel, the includes through it, the
      excludes outside it. */
  datatype Setup = Setup(serverAddress: seq<byte>, includes: seq<Prefix>, excludes: seq<Prefix>,
                         localIndex: int, tunnelIndex: int, localGateway: seq<byte>, tunnelGateway: seq<byte>)
  {
    function Server(): Route {
      Route(Add, localIndex, serverAddress, None, localGateway)
    }

    function Include(i: nat): Route
      requires i < |includes|
    {
      Route(Add, tunnelIndex, includes[i].dst, Some(includes[i].mask), tunnelGateway)
    }

    function Exclude(i: nat): Route
      requires i < |excludes|
    {
      Route(Add, localIndex, excludes[i].dst, Some(excludes[i].mask), localGateway)
    }

    function Splits(): seq<Route> {
      seq(|includes|, i requires 0 <= i < |includes| => Include(i)) +
      seq(|excludes|, i requires 0 <= i < |excludes| => Exclude(i))
    }

    lemma SplitsListed()
      requires Valid()
      ensures |Splits()| == |includes| + |excludes| && AddOnly(Splits()) && Masked(Splits())
      ensures forall i :: 0 <= i < |includes| ==> Splits()[i] == Include(i)
      ensures forall i :: 0 <= i < |excludes| ==> Splits()[|includes| + i] == Exclude(i)
    {
    }

    /** What goes where: the server and the excludes by the local interface and gateway, the includes by
        those of the tunnel. */
    lemma Fields()
      ensures KeyOf(Server()) == Key(Canonical(serverAddress), None)
      ensures EntryOf(Server()) == Entry(localIndex % 0x1_0000, Canonical(localGateway))
      ensures forall i :: 0 <= i < |includes| ==>
                && KeyOf(Include(i)) == includes[i].Target()
                && EntryOf(Include(i)) == Entry(tunnelIndex % 0x1_0000, Canonical(tunnelGateway))
      ensures forall i :: 0 <= i < |excludes| ==>
                && KeyOf(Exclude(i)) == excludes[i].Target()
                && EntryOf(Exclude(i)) == Entry(localIndex % 0x1_0000, Canonical(localGateway))
    {
      hide Canonical;
    }

    /** No earlier split has the key of an exclude that differs from those of all includes and of the
        excludes before it. */
    lemma EarlierSplits(i: nat)
      requires Valid() && i < |excludes|
      ensures |Splits()| == |includes| + |excludes| && KeyOf(Splits()[|includes| + i]) == excludes[i].Target()
      ensures (forall j :: 0 <= j < |includes| ==> includes[j].Target() != excludes[i].Target())
              && (forall j :: 0 <= j < i ==> excludes[j].Target() != excludes[i].Target()) ==>
                forall j :: 0 <= j < |includes| + i ==> KeyOf(Splits()[j]) != excludes[i].Target()
    {
      hide KeyOf, EntryOf, Splits;
      SplitsListed();
      Fields();
      assert Splits()[|includes| + i] == Exclude(i);
      if (forall j :: 0 <= j < |includes| ==> includes[j].Target() != excludes[i].Target())
         && (forall j :: 0 <= j < i ==> excludes[j].Target() != excludes[i].Target())
      {
        forall j | 0 <= j < |includes| + i ensures KeyOf(Splits()[j]) != excludes[i].Target() {
          if j < |includes| {
            assert Splits()[j] == Include(j);
          } else {
            assert Splits()[|includes| + (j - |includes|)] == Exclude(j - |includes|);
          }
        }
      }
    }

    lemma BatchSize()
      ensures |Replacing(Server(), Splits())| == Size()
    {
    }

    function Size(): nat {
      |includes| + |excludes| + 2
    }

    /** Parsed masks are never empty; no batch outgrows the sequence numbers. */
    predicate Valid() {
      && (forall i :: 0 <= i < |includes| ==> includes[i].mask != [])
      && (forall i :: 0 <= i < |excludes| ==> excludes[i].mask != [])
      && Size() <= 0xffff_ffff
    }
  }

  /** The batch of a new connection: the server's route is deleted and added again by the local gateway,
      the includes are added by that of the tunnel and the excludes by the local one. */
  method ConnectionRoutes(p: Setup) returns (routes: seq<Route>)
    requires p.Valid()
    ensures |routes| == 2 + |p.includes| + |p.excludes|
    ensures routes[0] == Route(Delete, p.localIndex, p.serverAddress, None, p.localGateway)
    ensures routes[1] == Route(Add, p.localIndex, p.serverAddress, None, p.localGateway)
    ensures forall i :: 0 <= i < |p.includes| ==>
              routes[i + 2] == Route(Add, p.tunnelIndex, p.includes[i].dst, Some(p.includes[i].mask), p.tunnelGateway)
    ensures forall i :: 0 <= i < |p.excludes| ==>
              routes[i + (|p.includes| + 2)] ==
              Route(Add, p.localIndex, p.excludes[i].dst, Some(p.excludes[i].mask), p.localGateway)
  {
    routes := [Route(Delete, p.localIndex, p.serverAddress, None, p.localGateway),
               Route(Add, p.localIndex, p.serverAddress, None, p.localGateway)];
    ghost var head := routes;
    var i := 0;
    while i < |p.includes|
      invariant 0 <= i <= |p.includes| && |routes| == i + 2
      invariant routes[..2] == head
      invariant forall j :: 0 <= j < i ==>
                  routes[j + 2] ==
                  Route(Add, p.tunnelIndex, p.includes[j].dst, Some(p.includes[j].mask), p.tunnelGateway)
    {
      routes := routes + [Route(Add, p.tunnelIndex, p.includes[i].dst, Some(p.includes[i].mask), p.tunnelGateway)];
      i := i + 1;
    }
    head := routes;
    ghost var n := i + 2;
    i := 0;
    while i < |p.excludes|
      invariant 0 <= i <= |p.excludes| && |routes| == i + n
      invariant routes[..n] == head
      invariant forall j :: 0 <= j < i ==>
                  routes[j + n] == Route(Add, p.localIndex, p.excludes[j].dst, Some(p.excludes[j].mask), p.localGateway)
    {
      routes := routes + [Route(Add, p.localIndex, p.excludes[i].dst, Some(p.excludes[i].mask), p.localGateway)];
      i := i + 1;
    }
    assert forall j :: 0 <= j < n ==> routes[j] == routes[..n][j];
  }

  /** That is the replacement of the server's route with the splits. */
  lemma BatchIs(p: Setup, routes: seq<Route>)
    requires p.Valid() && |routes| == 2 + |p.includes| + |p.excludes|
    requires routes[0] == AsDelete(p.Server()) && routes[1] == p.Server()
    requires forall i :: 0 <= i < |p.includes| ==> routes[i + 2] == p.Include(i)
    requires forall i :: 0 <= i < |p.excludes| ==> routes[i + (|p.includes| + 2)] == p.Exclude(i)
    ensures routes == Replacing(p.Server(), p.Splits())
  {
    p.SplitsListed();
    var all, n := Replacing(p.Server(), p.Splits()), |p.includes|;
    assert |all| == |routes|;
    forall j | 0 <= j < |routes| ensures routes[j] == all[j] {
      if 2 <= j < n + 2 {
        assert all[j] == p.Splits()[j - 2] && routes[(j - 2) + 2] == p.Include(j - 2);
      } else if n + 2 <= j {
        assert all[j] == p.Splits()[n + (j - n - 2)] && routes[(j - n - 2) + (n + 2)] == p.Exclude(j - n - 2);
      }
    }
  }

  /** Host routes by one interface and gateway for the addresses that could be parsed. */
  function HostRoutes(ips: seq<Option<seq<byte>>>, ifidx: int, gateway: seq<byte>): (rs: seq<Route>)
    ensures |rs| <= |ips| && AddOnly(rs) && Masked(rs)
  {
    if ips == [] then []
    else
      var n := |ips| - 1;
      HostRoutes(ips[..n], ifidx, gateway) +
      if ips[n].Some? then [Route(Add, ifidx, ips[n].value, None, gateway)] else []
  }

  /** They cover each parsed address as a host, all by that interface and gateway. */
  lemma {:induction false} HostKeys(ips: seq<Option<seq<byte>>>, ifidx: int, gateway: seq<byte>)
    ensures var rs := HostRoutes(ips, ifidx, gateway);
            && (forall i :: 0 <= i < |ips| && ips[i].Some? ==> Key(Canonical(ips[i].value), None) in Keys(rs))
            && (forall r :: r in rs ==> EntryOf(r) == Entry(ifidx % 0x1_0000, Canonical(gateway)))
  {
    hide Canonical, Keys;
    if ips != [] {
      var n := |ips| - 1;
      var rs, before := HostRoutes(ips, ifidx, gateway), HostRoutes(ips[..n], ifidx, gateway);
      HostKeys(ips[..n], ifidx, gateway);
      if ips[n].Some? {
        KeysSnoc(rs);
        assert rs[..|before|] == before;
      } else {
        assert rs == before;
      }
      forall i | 0 <= i < |ips| && ips[i].Some? ensures Key(Canonical(ips[i].value), None) in Keys(rs) {
        if i < n { assert ips[..n][i] == ips[i]; }
      }
    }
  }

  /** New entries for their keys are by that interface and gateway. */
  lemma HostEntries(rs: seq<Route>, e: RouteBatch.Entry, t0: Table, t: Table)
    requires forall r :: r in rs ==> EntryOf(r) == e
    requires forall i :: 0 <= i < |rs| ==>
               && KeyOf(rs[i]) in t
               && (KeyOf(rs[i]) !in t0 && (forall j :: 0 <= j < i ==> KeyOf(rs[j]) != KeyOf(rs[i])) ==>
                     t[KeyOf(rs[i])] == EntryOf(rs[i]))
    ensures forall k :: k in Keys(rs) ==> k in t && (k !in t0 ==> t[k] == e)
  {
    hide KeyOf, EntryOf, Keys;
    forall k | k in Keys(rs) ensures k in t && (k !in t0 ==> t[k] == e) {
      var i := FirstWith(rs, k);
      assert rs[i] in rs;
    }
  }

  /** The first route with a key. */
  ghost function FirstWith(rs: seq<Route>, k: RouteBatch.Key): (i: nat)
    requires k in Keys(rs)
    ensures i < |rs| && KeyOf(rs[i]) == k && forall j :: 0 <= j < i ==> KeyOf(rs[j]) != k
  {
    KeysSnoc(rs);
    var n := |rs| - 1;
    if k in Keys(rs[..n]) then FirstWith(rs[..n], k) else KeysLast(rs, k); n
  }

  lemma KeysLast(rs: seq<Route>, k: RouteBatch.Key)
    requires rs != [] && k in Keys(rs) && k !in Keys(rs[..|rs| - 1])
    ensures KeyOf(rs[|rs| - 1]) == k && forall j :: 0 <= j < |rs| - 1 ==> KeyOf(rs[j]) != k
  {
    hide KeyOf;
    KeysSnoc(rs);
    forall j | 0 <= j < |rs| - 1 ensures KeyOf(rs[j]) != k {
      assert rs[..|rs| - 1][j] == rs[j];
    }
  }

  /** What any run of a new connection's batch leaves. On success the server is reached by the local
      gateway; every split route is there, an include by the tunnel and an exclude by the local gateway if
      its key was free and no earlier route of the batch took it; and nothing else has changed. */
  lemma ConnectionRun(p: Setup, t: Table, inst: seq<Route>, run: BatchRun)
    requires p.Valid() && Possible(t, Replacing(p.Server(), p.Splits()), run)
    ensures var k, t2 := Key(Canonical(p.serverAddress), None), RunTable(t, Replacing(p.Server(), p.Splits()), run);
            run.Success? ==>
              && p.Server() in RunInstalled(t, inst, Replacing(p.Server(), p.Splits()), run)
              && k in t2 && t2[k] == Entry(p.localIndex % 0x1_0000, Canonical(p.localGateway))
              && (forall i :: 0 <= i < |p.includes| ==>
                    var l := p.includes[i].Target();
                    && l in t2
                    && (l !in t && l != k && (forall j :: 0 <= j < i ==> p.includes[j].Target() != l) ==>
                          t2[l] == Entry(p.tunnelIndex % 0x1_0000, Canonical(p.tunnelGateway))))
              && (forall i :: 0 <= i < |p.excludes| ==>
                    var l := p.excludes[i].Target();
                    && l in t2
                    && (l !in t && l != k && (forall j :: 0 <= j < |p.includes| ==> p.includes[j].Target() != l)
                        && (forall j :: 0 <= j < i ==> p.excludes[j].Target() != l) ==>
                          t2[l] == Entry(p.localIndex % 0x1_0000, Canonical(p.localGateway))))
              && (forall l :: l in t && l != k ==> l in t2 && t2[l] == t[l])
  {
    hide Lawful, KeyOf, EntryOf, Canonical, EffectiveMask, Keys, Possible, RunTable, RunInstalled, Replacing;
    p.SplitsListed();
    p.Fields();
    if run.Success? {
      var t2, splits := RunTable(t, Replacing(p.Server(), p.Splits()), run), p.Splits();
      ReplacedPresent(t, p.Server(), splits, run.fates);
      ReplacedListed(t, inst, p.Server(), splits, run.fates);
      forall i | 0 <= i < |p.includes|
        ensures p.includes[i].Target() in t2
        ensures p.includes[i].Target() !in t && p.includes[i].Target() != KeyOf(p.Server())
                && (forall j :: 0 <= j < i ==> p.includes[j].Target() != p.includes[i].Target()) ==>
                  t2[p.includes[i].Target()] == Entry(p.tunnelIndex % 0x1_0000, Canonical(p.tunnelGateway))
      {
        assert splits[i] == p.Include(i);
      }
      forall i | 0 <= i < |p.excludes|
        ensures p.excludes[i].Target() in t2
        ensures p.excludes[i].Target() !in t && p.excludes[i].Target() != KeyOf(p.Server())
                && (forall j :: 0 <= j < |p.includes| ==> p.includes[j].Target() != p.excludes[i].Target())
                && (forall j :: 0 <= j < i ==> p.excludes[j].Target() != p.excludes[i].Target()) ==>
                  t2[p.excludes[i].Target()] == Entry(p.localIndex % 0x1_0000, Canonical(p.localGateway))
      {
        assert splits[|p.includes| + i] == p.Exclude(i);
        p.EarlierSplits(i);
      }
    }
  }

  /** If we had no route to the server installed, the record stays exact, and a failure loses at most the
      server's old route. */
  lemma ConnectionOwned(p: Setup, t: Table, base: Table, inst: seq<Route>, run: BatchRun)
    requires p.Valid() && Possible(t, Replacing(p.Server(), p.Splits()), run)
    requires Owned(t, base, inst) && KeyOf(p.Server()) !in Keys(inst)
    ensures var k, t2 := KeyOf(p.Server()), RunTable(t, Replacing(p.Server(), p.Splits()), run);
            var inst2 := RunInstalled(t, inst, Replacing(p.Server(), p.Splits()), run);
            if run.Success? then Owned(t2, base - {k}, inst2) else inst2 == inst && (t2 == t || t2 == t - {k})
  {
    hide Lawful, KeyOf, EntryOf, Owned, Keys, Possible, RunTable, RunInstalled, Replacing;
    p.SplitsListed();
    ReplaceKeepsOwned(t, base, inst, p.Server(), p.Splits(), run);
    if run.Success? { FirstNotFailed(t, p.Server(), p.Splits(), run); }
  }

  datatype Dynamic = Dynamic(ips: seq<Option<seq<byte>>>, throughTunnel: bool)

  class Socket {
    const kernel: Kernel
    const pid: int32
    var open: bool
    var lastSeq: int32
    var localIndex: int
    var tunnelIndex: int
    var localGateway: seq<byte>
    var tunnelGateway: seq<byte>
    var installed: seq<Route>
    /** a rollback's own deletes did not go through */
    ghost var rollbackFailed: bool

    constructor (kernel: Kernel, pid: int32)
      ensures this.kernel == kernel && !open && installed == [] && lastSeq == 0 && !rollbackFailed
    {
      this.kernel, this.pid := kernel, pid;
      open, lastSeq, localIndex, tunnelIndex, localGateway, tunnelGateway := false, 0, 0, 0, [], [];
      installed, rollbackFailed := [], false;
    }

    ghost predicate Untroubled() reads this, kernel {
      !kernel.silent && !rollbackFailed
    }

    /** What has gone wrong stays on record, and a rollback fails only because of the kernel. */
    twostate predicate TroubleKept() reads this, kernel {
      && (old(kernel.silent) ==> kernel.silent)
      && (old(kernel.failedDelete) ==> kernel.failedDelete)
      && (old(kernel.failedAdd) ==> kernel.failedAdd)
      && (old(kernel.openFailed) ==> kernel.openFailed)
      && (old(kernel.drainFailed) ==> kernel.drainFailed)
      && (old(rollbackFailed) ==> rollbackFailed)
      && (rollbackFailed ==> old(rollbackFailed) || kernel.silent || kernel.failedDelete || kernel.drainFailed)
    }

    method NextSequence() returns (s: int32)
      modifies this`lastSeq
      ensures s == lastSeq == NextSeq(old(lastSeq))
      ensures s == if old(lastSeq) == 0x7fff_ffff then -0x8000_0000
                   else if old(lastSeq) == -1 then 1 else old(lastSeq) + 1
    {
      lastSeq := if lastSeq == 0x7fff_ffff then -0x8000_0000 else lastSeq + 1;
      if lastSeq == 0 {
        lastSeq := 1;
      }
      s := lastSeq;
    }

    method RemoveInstalled(route: Route)
      modifies this`installed
      ensures installed == Remove(old(installed), route)
    {
      hide Remove, SameRoute;
      var index := |installed| - 1;
      assert installed[..index + 1] == installed && installed[index + 1..] == [];
      while index >= 0
        invariant -1 <= index < |installed|
        invariant Remove(installed, route) == Remove(installed[..index + 1], route) + installed[index + 1..]
        invariant installed == old(installed)
      {
        RemoveStep(installed, index + 1, route);
        if SameRoute(installed[index], route) {
          installed := installed[..index] + installed[index + 1..];
          return;
        }
        assert [installed[index]] + installed[index + 1..] == installed[index..];
        index := index - 1;
      }
      RemoveNone(route);
      assert installed[..0] == [] && installed[0..] == installed;
    }

    /** Records the successful requests, in order. */
    method ApplyResults(reqs: seq<Request>, results: Results)
      modifies this`installed
      ensures installed == InstalledAfter(old(installed), Routes(reqs), Outcomes(reqs, results))
    {
      hide Remove, InstalledAfter, TableAfter, Lawful, Added;
      var i := 0;
      ghost var rs, fs := Routes(reqs), Outcomes(reqs, results);
      NoRequests(map[], old(installed));
      assert rs[..0] == [] && fs[..0] == [];
      while i < |reqs|
        invariant 0 <= i <= |reqs|
        invariant installed == InstalledAfter(old(installed), rs[..i], fs[..i])
      {
        var req := reqs[i];
        assert rs[..i + 1] == rs[..i] + [rs[i]] && fs[..i + 1] == fs[..i] + [fs[i]];
        SnocStep(map[], old(installed), rs[..i], fs[..i], rs[i], fs[i]);
        i := i + 1;
        if req.seqno !in results || results[req.seqno] != 0 {
          continue;
        }
        match req.route.kind {
          case Add => installed := installed + [req.route];
          case Delete => RemoveInstalled(req.route);
        }
      }
      assert rs[..i] == rs && fs[..i] == fs;
    }

    /** The DELETEs that take back the successful ADDs. */
    method RollbackList(reqs: seq<Request>, results: Results) returns (rollback: seq<Route>)
      requires AllBuilt(Routes(reqs))
      ensures rollback == AsDeletes(Added(Routes(reqs), Outcomes(reqs, results)))
      ensures |rollback| <= |reqs| && AllBuilt(rollback)
    {
      hide Buildable, TableAfter, InstalledAfter, Lawful, Added, AsDeletes, SameRoute;
      rollback := [];
      NoRequests(map[], []);
      AsDeletesSnoc([], Route(Add, 0, [], None, []));
      ghost var rs, fs := Routes(reqs), Outcomes(reqs, results);
      var i := 0;
      while i < |reqs|
        invariant 0 <= i <= |reqs|
        invariant rollback == AsDeletes(Added(rs[..i], fs[..i]))
        invariant |rollback| <= i
        invariant AllBuilt(rollback)
      {
        var req := reqs[i];
        assert WellBuilt(rs[i]);
        assert rs[..i + 1] == rs[..i] + [rs[i]] && fs[..i + 1] == fs[..i] + [fs[i]];
        SnocStep(map[], [], rs[..i], fs[..i], rs[i], fs[i]);
        AsDeletesSnoc(Added(rs[..i], fs[..i]), rs[i]);
        i := i + 1;
        if req.route.kind != Add {
          continue;
        }
        if req.seqno !in results || results[req.seqno] != 0 {
          continue;
        }
        rollback := rollback + [AsDelete(req.route)];
      }
      assert rs[..i] == rs && fs[..i] == fs;
    }

    /** Deletes again what the requests added. */
    method RollbackSuccessfulAdds(reqs: seq<Request>, results: Results) returns (ghost undo: seq<Fate>)
      requires open && |reqs| <= 0xffff_ffff && AllBuilt(Routes(reqs))
      modifies this`lastSeq, this`installed, this`rollbackFailed, kernel
      ensures TroubleKept()
      ensures old(AllBuilt(installed)) ==> AllBuilt(installed)
      ensures |installed| <= |old(installed)|
      ensures CountAdds(Routes(reqs)) == 0 ==> unchanged(this) && unchanged(kernel)
      ensures var dels := AsDeletes(Added(Routes(reqs), Outcomes(reqs, results)));
              Untroubled() ==>
                && Lawful(old(kernel.table), dels, undo) && NoFailure(undo)
                && kernel.table == TableAfter(old(kernel.table), dels, undo)
                && installed == InstalledAfter(old(installed), dels, undo)
      decreases CountAdds(Routes(reqs)), 0
    {
      hide WellBuilt, TableAfter, InstalledAfter, Lawful, Added;
      ghost var rs, fs := Routes(reqs), Outcomes(reqs, results);
      var rollback := RollbackList(reqs, results);
      undo := [];
      if rollback == [] {
        NoRequests(kernel.table, installed);
        return;
      }
      AddedCounts(rs, fs);
      DeletesCountNone(rollback);
      var failed;
      ghost var run;
      failed, run := Pipeline(rollback);
      rollbackFailed := rollbackFailed || failed;
      if run.Success? {
        undo := run.fates;
      }
    }

    /** Numbers the routes and builds their messages. */
    method BuildRequests(routes: seq<Route>) returns (ok: bool, requests: seq<Request>)
      requires |routes| <= 0xffff_ffff
      modifies this`lastSeq
      ensures ok <==> AllBuilt(routes)
      ensures ok ==> Routes(requests) == routes && DistinctSeqs(requests)
      ensures ok ==> forall i :: 0 <= i < |requests| ==> Carries(requests[i]) && Numbered(requests[i], pid)
    {
      hide BuildRtMsg, Buildable, NextSeq, ParseRtMsg, Canonical, EffectiveMask, Addresses, Holds16, Holds32;
      requests := [];
      ghost var start := lastSeq;
      var i := 0;
      while i < |routes|
        invariant 0 <= i <= |routes| && lastSeq == SeqAfter(start, i)
        invariant |requests| == i
        invariant forall j :: 0 <= j < i ==> requests[j].route == routes[j] && WellBuilt(routes[j])
                                             && requests[j].seqno == SeqAfter(start, j + 1) && Carries(requests[j])
                                             && Numbered(requests[j], pid)
      {
        var route := routes[i];
        var s := NextSequence();
        var data := BuildRtMsg(KindCode(route.kind), s, route.ifidx, route.dst, route.mask, route.gateway, pid);
        if data.None? {
          return false, requests;
        }
        MessageBytes(KindCode(route.kind), s, route.ifidx, route.dst, route.mask, route.gateway, pid);
        ParseBuilt(KindCode(route.kind), s, route.ifidx, route.dst, route.mask, route.gateway, pid);
        requests := requests + [Request(s, route, data.value)];
        i := i + 1;
      }
      forall a, b | 0 <= a < b < |requests| ensures requests[a].seqno != requests[b].seqno {
        SequenceDistinct(start, a + 1, b + 1);
      }
      ok := true;
    }

    /** Writes the requests in order, passing over benign refusals, up to the first other one. */
    method WriteAll(requests: seq<Request>)
      returns (refused: bool, written: seq<Request>, ghost fates: seq<Fate>, ghost wf: seq<Fate>)
      requires DistinctSeqs(requests) && kernel.verdicts == map[]
      requires forall i :: 0 <= i < |requests| ==> Carries(requests[i])
      modifies kernel`table, kernel`verdicts, kernel`failedDelete, kernel`failedAdd
      ensures |fates| <= |requests| && (!refused ==> |fates| == |requests|)
      ensures Lawful(old(kernel.table), Routes(requests)[..|fates|], fates)
      ensures kernel.table == TableAfter(old(kernel.table), Routes(requests)[..|fates|], fates)
      ensures Tracks(installed, Routes(requests)[..|fates|], fates, Routes(written), wf)
      ensures Failed in fates <==> refused || Failed in wf
      ensures Pending(written, wf, kernel.verdicts)
      ensures AllBuilt(Routes(requests)) ==> AllBuilt(Routes(written))
      ensures refused ==> fates != [] && fates[|fates| - 1] == Failed
      ensures old(kernel.failedDelete) ==> kernel.failedDelete
      ensures old(kernel.failedAdd) ==> kernel.failedAdd
      ensures Told(kernel.failedDelete, kernel.failedAdd, Routes(requests)[..|fates|], fates)
    {
      hide WellBuilt, TableAfter, InstalledAfter, Lawful, Added, CountAdds, TableStep, LawfulStep, FateOf, Carries,
           Told;
      written, fates, wf := [], [], [];
      ghost var rs, t0 := Routes(requests), kernel.table;
      NoneFailed(kernel.failedDelete, kernel.failedAdd);
      NoRequests(t0, installed);
      var i := 0;
      while i < |requests|
        invariant 0 <= i <= |requests| && |fates| == i
        invariant Lawful(t0, rs[..i], fates) && kernel.table == TableAfter(t0, rs[..i], fates)
        invariant Tracks(installed, rs[..i], fates, Routes(written), wf)
        invariant Failed in fates <==> Failed in wf
        invariant Pending(written, wf, kernel.verdicts)
        invariant AllBuilt(rs) ==> AllBuilt(Routes(written))
        invariant forall s :: s in kernel.verdicts ==> exists j :: 0 <= j < i && requests[j].seqno == s
        invariant old(kernel.failedDelete) ==> kernel.failedDelete
        invariant old(kernel.failedAdd) ==> kernel.failedAdd
        invariant Told(kernel.failedDelete, kernel.failedAdd, rs[..i], fates)
      {
        var req := requests[i];
        ghost var before := rs[..i];
        assert rs[..i + 1] == before + [req.route];
        ghost var fd, fa := kernel.failedDelete, kernel.failedAdd;
        var e: int32;
        ghost var fate, own;
        e, fate, own := kernel.Write(req.data, req);
        SnocStep(t0, installed, before, fates, req.route, fate);
        ToldStep(fd, fa, before, fates, req.route, fate);
        if e != 0 {
          NoDoneByError(req.route.kind, e);
          TracksSkip(installed, before, fates, Routes(written), wf, req.route, fate);
          fates := fates + [fate];
          if req.route.kind.Add? && e == EEXIST {
            i := i + 1;
            continue;
          }
          if req.route.kind.Delete? && (e == ENOENT || e == ESRCH) {
            i := i + 1;
            continue;
          }
          refused := true;
          return;
        }
        TracksWrite(installed, before, fates, Routes(written), wf, req.route, fate);
        assert Routes(written + [req]) == Routes(written) + [req.route];
        fates, wf := fates + [fate], wf + [fate];
        written := written + [req];
        i := i + 1;
      }
      assert rs[..i] == rs;
      refused := false;
    }

    /** The answers to the written requests. */
    method CollectFor(written: seq<Request>, ghost wf: seq<Fate>) returns (results: Results, complete: bool)
      requires Pending(written, wf, kernel.verdicts)
      modifies kernel`silent
      ensures !kernel.silent ==> !old(kernel.silent) && complete && Outcomes(written, results) == wf
      ensures complete ==> results.Keys == Wanted(written)
    {
      hide Records;
      var wanted: set<int32> := set i | 0 <= i < |written| :: written[i].seqno;
      var input := [];
      if wanted != {} {
        input := kernel.Deliver(wanted);
      }
      results, complete := CollectAcks(wanted, input);
      if !kernel.silent {
        forall s | s in wanted ensures s in results.Keys {
          var i, j :| HeaderAt(input, i, j) && HeaderOf(input, i, j).seqno == s;
        }
        forall s | s in results && s in kernel.verdicts ensures results[s] == kernel.verdicts[s] {
          var i, j :| First(input, s, i, j) && HeaderOf(input, i, j).errno == results[s];
        }
      }
    }

    /** Is there an answer that is neither success nor benign? */
    method AnyFailure(written: seq<Request>, results: Results) returns (bad: bool)
      requires results.Keys == Wanted(written)
      ensures bad <==> Failed in Outcomes(written, results)
    {
      bad := false;
      var i := 0;
      ghost var fs := Outcomes(written, results);
      while i < |written|
        invariant 0 <= i <= |written|
        invariant bad <==> Failed in fs[..i]
      {
        assert fs[..i + 1] == fs[..i] + [fs[i]];
        var req := written[i];
        assert req.seqno in results.Keys;
        var e := results[req.seqno];
        i := i + 1;
        if e == 0 {
          continue;
        }
        if req.route.kind.Add? && e == EEXIST {
          continue;
        }
        if req.route.kind.Delete? && (e == ENOENT || e == ESRCH) {
          continue;
        }
        bad := true;
      }
      assert fs[..i] == fs;
    }

    /** Once a write is refused: collects the answers to what was written before and takes its
        successful ADDs back; nothing is recorded. */
    method TakeBack(written: seq<Request>, ghost wf: seq<Fate>) returns (ghost undo: seq<Fate>)
      requires open && |written| <= 0xffff_ffff && AllBuilt(Routes(written))
      requires Pending(written, wf, kernel.verdicts)
      modifies this`lastSeq, this`installed, this`rollbackFailed, kernel
      ensures TroubleKept()
      ensures old(AllBuilt(installed)) ==> AllBuilt(installed)
      ensures |installed| <= |old(installed)|
      ensures Untroubled() ==>
                var dels := AsDeletes(Added(Routes(written), wf));
                && Lawful(old(kernel.table), dels, undo) && NoFailure(undo)
                && kernel.table == TableAfter(old(kernel.table), dels, undo)
                && installed == InstalledAfter(old(installed), dels, undo)
      decreases CountAdds(Routes(written)), 1
    {
      hide WellBuilt, TableAfter, InstalledAfter, Lawful, Added, Outcomes, AsDeletes, CountAdds, AllBuilt;
      undo := [];
      if |written| > 0 {
        var results, _ := CollectFor(written, wf);
        undo := RollbackSuccessfulAdds(written, results);
      } else {
        NoRequests(kernel.table, installed);
        assert Routes(written) == [] && wf == [] && AsDeletes([]) == [];
      }
    }

    /** Once all requests are written: collects the answers, records the successes, and takes the
        successful ADDs back if something failed. */
    method Settle(written: seq<Request>, ghost wf: seq<Fate>) returns (failed: bool, ghost undo: seq<Fate>)
      requires open && |written| <= 0xffff_ffff && AllBuilt(Routes(written))
      requires Pending(written, wf, kernel.verdicts)
      modifies this`lastSeq, this`installed, this`rollbackFailed, kernel
      ensures TroubleKept()
      ensures old(AllBuilt(installed)) ==> AllBuilt(installed)
      ensures |installed| <= |old(installed)| + CountAdds(Routes(written))
      ensures !kernel.silent ==> (failed <==> Failed in wf)
      ensures !failed && !kernel.silent ==>
                && kernel.table == old(kernel.table)
                && installed == InstalledAfter(old(installed), Routes(written), wf)
      ensures failed && Untroubled() ==>
                var dels := AsDeletes(Added(Routes(written), wf));
                && Lawful(old(kernel.table), dels, undo) && NoFailure(undo)
                && kernel.table == TableAfter(old(kernel.table), dels, undo)
                && installed == InstalledAfter(InstalledAfter(old(installed), Routes(written), wf), dels, undo)
      decreases CountAdds(Routes(written)), 1
    {
      hide WellBuilt, TableAfter, InstalledAfter, Lawful, Added, Outcomes, AsDeletes, CountAdds, Pending, AllBuilt;
      failed, undo := true, [];
      ghost var inst0 := installed;
      var results, complete := CollectFor(written, wf);
      ApplyResults(written, results);
      if AllBuilt(inst0) { InstalledBuilt(inst0, Routes(written), Outcomes(written, results)); }
      InstalledSize(inst0, Routes(written), Outcomes(written, results));
      if !complete {
        undo := RollbackSuccessfulAdds(written, results);
        return;
      }
      failed := AnyFailure(written, results);
      if failed {
        undo := RollbackSuccessfulAdds(written, results);
      }
    }

    /** One batch, and how it went. */
    method Pipeline(routes: seq<Route>) returns (failed: bool, ghost run: BatchRun)
      requires |routes| <= 0xffff_ffff
      modifies this`lastSeq, this`installed, this`rollbackFailed, kernel
      ensures TroubleKept()
      ensures old(AllBuilt(installed)) ==> AllBuilt(installed)
      ensures |installed| <= |old(installed)| + CountAdds(routes)
      ensures failed <==> !run.Success?
      ensures run.Untried? ==> !open || kernel.drainFailed || !AllBuilt(routes)
      ensures open && AllBuilt(routes) && kernel.Willing() && !kernel.failedAdd ==> !failed
      ensures run.Failure? && !kernel.silent && !kernel.failedDelete ==>
                kernel.failedAdd && AddFailed(routes, run.fates)
      ensures Untroubled() ==>
                && Possible(old(kernel.table), routes, run)
                && kernel.table == RunTable(old(kernel.table), routes, run)
                && installed == RunInstalled(old(kernel.table), old(installed), routes, run)
      decreases CountAdds(routes), 2
    {
      hide WellBuilt, TableAfter, InstalledAfter, Lawful, Added, Outcomes, AsDeletes, CountAdds, Pending, AllBuilt,
           Possible, RunTable, RunInstalled, AddFailed, NoFailed, Carries, DistinctSeqs, Wanted, Tried;
      failed, run := false, Success([]);
      NothingTried(kernel.table, installed, routes);
      if |routes| == 0 {
        return;
      }
      failed, run := true, Untried;
      if !open {
        return;
      }
      var ok := kernel.Drain();
      if !ok {
        return;
      }
      var requests;
      ok, requests := BuildRequests(routes);
      if !ok {
        return;
      }
      ghost var t0, inst0, fates, wf := kernel.table, installed, [], [];
      var refused, written;
      refused, written, fates, wf := WriteAll(requests);
      ghost var rs, undo := routes[..|fates|], [];
      if Failed in fates && !kernel.failedDelete { FailedAdd(routes, fates); }
      if refused {
        CountPrefix(routes, |fates|);
        undo := TakeBack(written, wf);
        run := Failure(fates, false, undo);
        if Untroubled() { FailedRun(t0, inst0, routes, run); }
        return;
      }
      assert rs == routes;
      failed, undo := Settle(written, wf);
      if failed {
        run := Failure(fates, true, undo);
        if Untroubled() { FailedRun(t0, inst0, routes, run); }
      } else {
        run := Success(fates);
        if Untroubled() { SuccessfulRun(t0, inst0, routes, fates); }
      }
    }

    /** Opens the socket unless it is open; may fail. */
    method OpenSocket(localIndex: int, tunnelIndex: int, localGateway: seq<byte>, tunnelGateway: seq<byte>)
      returns (ok: bool)
      modifies this`open, this`localIndex, this`tunnelIndex, this`localGateway, this`tunnelGateway,
               kernel`verdicts, kernel`drainFailed, kernel`openFailed
      ensures if ok then open else kernel.openFailed || kernel.drainFailed
      ensures TroubleKept()
      ensures old(open) ==> ok && unchanged(this)
      ensures !old(open) && ok ==>
                this.localIndex == localIndex && this.tunnelIndex == tunnelIndex
                && this.localGateway == localGateway && this.tunnelGateway == tunnelGateway
    {
      if open {
        return true;
      }
      ok := kernel.Open();
      if !ok {
        return;
      }
      this.localIndex, this.tunnelIndex := localIndex, tunnelIndex;
      this.localGateway, this.tunnelGateway := localGateway, tunnelGateway;
      ok := kernel.Drain();
      open := ok;
    }

    /** Forgets everything about the connection. */
    method Close()
      modifies this
      ensures !open && installed == [] && lastSeq == old(lastSeq) && rollbackFailed == old(rollbackFailed)
    {
      open, localIndex, tunnelIndex, localGateway, tunnelGateway, installed := false, 0, 0, [], [], [];
    }

    /** A batch of ADDs is a transaction: it fails and leaves the table as it was, and the list too unless
        that is exposed, or it succeeds with every route in the table. From an exact list it is never
        exposed, and the list stays exact. base is the part of the table that is not ours. */
    method AddBatch(routes: seq<Route>, ghost base: Table) returns (failed: bool)
      requires AddOnly(routes) && Masked(routes) && |routes| <= 0xffff_ffff
      modifies this`lastSeq, this`installed, this`rollbackFailed, kernel
      ensures TroubleKept()
      ensures Untroubled() && failed ==> kernel.table == old(kernel.table)
      ensures Untroubled() && failed && !old(Exposed(kernel.table, installed, routes)) ==> installed == old(installed)
      ensures Untroubled() ==> Kept(old(kernel.table), old(installed), kernel.table, installed)
      ensures Untroubled() && old(Owned(kernel.table, base, installed)) ==>
                && Owned(kernel.table, base, installed)
                && (failed ==> installed == old(installed))
      ensures Untroubled() && !failed ==>
                forall i :: 0 <= i < |routes| ==>
                  && KeyOf(routes[i]) in kernel.table
                  && (KeyOf(routes[i]) !in old(kernel.table)
                      && (forall j :: 0 <= j < i ==> KeyOf(routes[j]) != KeyOf(routes[i])) ==>
                        kernel.table[KeyOf(routes[i])] == EntryOf(routes[i]))
      ensures failed ==> !open || !AllBuilt(routes) || !kernel.Flawless()
      ensures |installed| <= |old(installed)| + |routes|
      ensures old(AllBuilt(installed)) ==> AllBuilt(installed)
    {
      hide Lawful, TableAfter, InstalledAfter, Added, KeyOf, EntryOf, CountAdds, WellBuilt, Owned, Exposed, Kept;
      CountBound(routes);
      ghost var run;
      failed, run := Pipeline(routes);
      ghost var t0, inst0 := old(kernel.table), old(installed);
      if Untroubled() {
        AddRunKeeps(t0, inst0, routes, run);
        if Owned(t0, base, inst0) { AddRunKeepsOwned(t0, base, inst0, routes, run); }
        if failed {
          AddRunFails(t0, inst0, routes, run);
        } else {
          AddsPresent(t0, routes, run.fates);
          forall i | 0 <= i < |routes| && KeyOf(routes[i]) !in t0
                     && (forall j :: 0 <= j < i ==> KeyOf(routes[j]) != KeyOf(routes[i]))
            ensures kernel.table[KeyOf(routes[i])] == EntryOf(routes[i])
          {
            FirstAddDecides(t0, routes, run.fates, i);
          }
        }
      }
    }

    function DynamicRoutes(ips: seq<Option<seq<byte>>>, throughTunnel: bool): seq<Route> reads this {
      if throughTunnel then HostRoutes(ips, tunnelIndex, tunnelGateway) else HostRoutes(ips, localIndex, localGateway)
    }

    /** Host routes for addresses met in answers to name queries; unparsable ones are dropped. */
    method AddDynamicRoutes(ips: seq<Option<seq<byte>>>, throughTunnel: bool, ghost base: Table)
      returns (failed: bool)
      requires |ips| <= 0xffff_ffff
      modifies this`lastSeq, this`installed, this`rollbackFailed, kernel
      ensures TroubleKept()
      ensures Untroubled() && failed ==> kernel.table == old(kernel.table)
      ensures Untroubled() && failed && !old(Exposed(kernel.table, installed, DynamicRoutes(ips, throughTunnel))) ==>
                installed == old(installed)
      ensures Untroubled() ==> Kept(old(kernel.table), old(installed), kernel.table, installed)
      ensures Untroubled() && old(Owned(kernel.table, base, installed)) ==>
                && Owned(kernel.table, base, installed)
                && (failed ==> installed == old(installed))
      ensures Untroubled() && !failed ==>
                forall i :: 0 <= i < |ips| && ips[i].Some? ==>
                  var k := Key(Canonical(ips[i].value), None);
                  && k in kernel.table
                  && (k !in old(kernel.table) ==>
                        kernel.table[k] == if throughTunnel then Entry(tunnelIndex % 0x1_0000, Canonical(tunnelGateway))
                                           else Entry(localIndex % 0x1_0000, Canonical(localGateway)))
      ensures failed ==> !open || !AllBuilt(DynamicRoutes(ips, throughTunnel)) || !kernel.Flawless()
      ensures !old(open) ==> failed && kernel.table == old(kernel.table) && installed == old(installed)
      ensures |installed| <= |old(installed)| + |ips|
      ensures old(AllBuilt(installed)) ==> AllBuilt(installed)
    {
      hide Owned, AllBuilt, Canonical, Exposed, Kept, Keys, KeyOf, EntryOf;
      if !open {
        NothingChanged(kernel.table, installed);
        return true;
      }
      var ifidx, gateway := localIndex, localGateway;
      if throughTunnel {
        ifidx, gateway := tunnelIndex, tunnelGateway;
      }
      var routes: seq<Route> := [];
      var i := 0;
      while i < |ips|
        invariant 0 <= i <= |ips| && routes == HostRoutes(ips[..i], ifidx, gateway)
      {
        assert ips[..i + 1][..i] == ips[..i];
        if ips[i].Some? {
          routes := routes + [Route(Add, ifidx, ips[i].value, None, gateway)];
        }
        i := i + 1;
      }
      assert ips[..i] == ips;
      failed := AddBatch(routes, base);
      HostKeys(ips, ifidx, gateway);
      if Untroubled() && !failed {
        HostEntries(routes, Entry(ifidx % 0x1_0000, Canonical(gateway)), old(kernel.table), kernel.table);
      }
    }

    /** Opens the socket if need be and runs a batch. */
    method OpenAndAdd(routes: seq<Route>, localIndex: int, tunnelIndex: int, localGateway: seq<byte>,
                      tunnelGateway: seq<byte>)
      returns (failed: bool, ghost run: BatchRun)
      requires |routes| <= 0xffff_ffff
      modifies this, kernel
      ensures TroubleKept() && (failed <==> !run.Success?) && (!failed ==> open)
      ensures Untroubled() ==>
                && Possible(old(kernel.table), routes, run)
                && kernel.table == RunTable(old(kernel.table), routes, run)
                && installed == RunInstalled(old(kernel.table), old(installed), routes, run)
      ensures failed ==> !AllBuilt(routes) || !kernel.Flawless()
      ensures !failed && !old(open) ==>
                && this.localIndex == localIndex && this.localGateway == localGateway
                && this.tunnelIndex == tunnelIndex && this.tunnelGateway == tunnelGateway
      ensures old(open) ==> this.localIndex == old(this.localIndex) && this.localGateway == old(this.localGateway)
      ensures old(open) ==> this.tunnelIndex == old(this.tunnelIndex) && this.tunnelGateway == old(this.tunnelGateway)
      ensures |installed| <= |old(installed)| + |routes|
      ensures old(AllBuilt(installed)) ==> AllBuilt(installed)
    {
      hide CountAdds, AllBuilt, Possible, RunTable, RunInstalled;
      CountBound(routes);
      NothingTried(kernel.table, installed, routes);
      var ok := OpenSocket(localIndex, tunnelIndex, localGateway, tunnelGateway);
      if !ok {
        return true, Untried;
      }
      failed, run := Pipeline(routes);
    }

    /** The batch of a new connection. On success the server is reached by the local gateway; every split
        route is in the table, an include by the tunnel and an exclude by the local gateway if its key was
        free and no earlier route of the batch took it; nothing else has changed. If we had no route to the
        server installed, the record stays exact over what was not ours but for the server's old route, and a
        failure loses at most that one. */
    method SetRoutes(p: Setup, ghost base: Table) returns (failed: bool)
      requires p.Valid()
      modifies this, kernel
      ensures TroubleKept()
      ensures Untroubled() && !failed ==>
              var k, t0, t := Key(Canonical(p.serverAddress), None), old(kernel.table), kernel.table;
              && p.Server() in installed
              && k in t && t[k] == Entry(p.localIndex % 0x1_0000, Canonical(p.localGateway))
              && (forall i :: 0 <= i < |p.includes| ==>
                    var l := p.includes[i].Target();
                    && l in t
                    && (l !in t0 && l != k && (forall j :: 0 <= j < i ==> p.includes[j].Target() != l) ==>
                          t[l] == Entry(p.tunnelIndex % 0x1_0000, Canonical(p.tunnelGateway))))
              && (forall i :: 0 <= i < |p.excludes| ==>
                    var l := p.excludes[i].Target();
                    && l in t
                    && (l !in t0 && l != k && (forall j :: 0 <= j < |p.includes| ==> p.includes[j].Target() != l)
                        && (forall j :: 0 <= j < i ==> p.excludes[j].Target() != l) ==>
                          t[l] == Entry(p.localIndex % 0x1_0000, Canonical(p.localGateway))))
              && (forall l :: l in t0 && l != k ==> l in t && t[l] == t0[l])
      ensures Untroubled() && old(Owned(kernel.table, base, installed) && KeyOf(p.Server()) !in Keys(installed)) ==>
                && (!failed ==> Owned(kernel.table, base - {KeyOf(p.Server())}, installed))
                && (failed ==>
                      && installed == old(installed)
                      && (kernel.table == old(kernel.table) || kernel.table == old(kernel.table) - {KeyOf(p.Server())}))
      ensures failed ==> !AllBuilt([p.Server()] + p.Splits()) || !kernel.Flawless()
      ensures !failed && !old(open) ==>
                && localIndex == p.localIndex && localGateway == p.localGateway
                && tunnelIndex == p.tunnelIndex && tunnelGateway == p.tunnelGateway
      ensures old(open) ==> localIndex == old(localIndex) && localGateway == old(localGateway)
      ensures old(open) ==> tunnelIndex == old(tunnelIndex) && tunnelGateway == old(tunnelGateway)
      ensures |installed| <= |old(installed)| + p.Size() && (!failed ==> open)
      ensures old(AllBuilt(installed)) ==> AllBuilt(installed)
    {
      hide KeyOf, EntryOf, CountAdds, AllBuilt, Owned, Keys, Possible, RunTable, RunInstalled, Replacing, Canonical,
           EffectiveMask;
      ghost var t0, inst0 := kernel.table, installed;
      var routes := ConnectionRoutes(p);
      BatchIs(p, routes);
      if AllBuilt([p.Server()] + p.Splits()) { ReplacingBuilt(p.Server(), p.Splits()); }
      p.BatchSize();
      ghost var run;
      failed, run := OpenAndAdd(routes, p.localIndex, p.tunnelIndex, p.localGateway, p.tunnelGateway);
      if Untroubled() {
        ConnectionRun(p, t0, inst0, run);
        if Owned(t0, base, inst0) && KeyOf(p.Server()) !in Keys(inst0) {
          ConnectionOwned(p, t0, base, inst0, run);
        }
      }
    }

    /** Deletes every installed route and closes the socket. */
    method ResetRoutes(ghost base: Table)
      requires |installed| <= 0xffff_ffff
      modifies this, kernel
      ensures !open && installed == []
      ensures TroubleKept()
      ensures old(open && AllBuilt(installed) && Owned(kernel.table, base, installed)) ==>
                Untroubled() && !kernel.failedDelete && !kernel.drainFailed ==> kernel.table == base
      ensures old(open && AllBuilt(installed)) && Untroubled() && kernel.Willing() ==>
                forall i :: 0 <= i < |old(installed)| ==> KeyOf(old(installed)[i]) !in kernel.table
      ensures !old(open) ==> kernel.table == old(kernel.table)
    {
      hide Lawful, TableAfter, InstalledAfter, Added, KeyOf, EntryOf, WellBuilt;
      if open {
        var mine := installed;
        var routes: seq<Route> := [];
        var i := 0;
        while i < |mine|
          invariant 0 <= i <= |mine| && routes == AsDeletes(mine[..i])
          invariant unchanged(this) && unchanged(kernel)
        {
          AsDeletesSnoc(mine[..i], mine[i]);
          assert mine[..i + 1] == mine[..i] + [mine[i]];
          routes := routes + [AsDelete(mine[i])];
          i := i + 1;
        }
        assert mine[..i] == mine;
        ghost var t0, inst0 := kernel.table, installed;
        if AllBuilt(installed) { DeletesBuilt(inst0); }
        var failed;
        ghost var run;
        failed, run := Pipeline(routes);
        if Untroubled() && !failed {
          DeletesAbsent(t0, inst0, run.fates);
          if old(Owned(kernel.table, base, installed)) { ResetRestores(t0, base, inst0, run.fates); }
        }
      }
      Close();
    }
  }

  lemma DeletesBuilt(a: seq<Route>)
    requires AllBuilt(a)
    ensures AllBuilt(AsDeletes(a))
  {
    hide Buildable;
  }

  lemma ReplacingBuilt(server: Route, splits: seq<Route>)
    requires AllBuilt([server] + splits)
    ensures AllBuilt(Replacing(server, splits))
  {
    hide Buildable;
    assert ([server] + splits)[0] == server;
  }

  /** In a successful replacement the DELETE did not fail. */
  lemma FirstNotFailed(t: Table, server: Route, splits: seq<Route>, run: BatchRun)
    requires Possible(t, Replacing(server, splits), run) && run.Success?
    ensures run.fates != [] && run.fates[0] != Failed
  {
    hide Lawful;
    TriedSome(t, server, splits, run);
    assert run.fates[0] in run.fates;
  }

  /** A whole connection on a fresh socket: one SetRoutes, any number of dynamic batches, each of
      which may fail, and ResetRoutes. If the kernel answers, fails no DELETE and lets the socket be
      drained, the table ends as it began but for the old server host route. */
  method Connection(sock: Socket, p: Setup, dynamics: seq<Dynamic>) returns (up: bool)
    requires !sock.open && sock.installed == [] && p.Valid()
    requires p.Size() + Count(dynamics) <= 0xffff_ffff
    modifies sock, sock.kernel
    ensures !sock.open && sock.installed == []
    ensures !up ==> !AllBuilt([p.Server()] + p.Splits()) || !sock.kernel.Flawless()
    ensures !old(sock.rollbackFailed) && sock.kernel.Willing() ==>
              && (up ==> sock.kernel.table == old(sock.kernel.table) - {KeyOf(p.Server())})
              && (!up ==> sock.kernel.table == old(sock.kernel.table)
                          || sock.kernel.table == old(sock.kernel.table) - {KeyOf(p.Server())})
  {
    hide Owned, AllBuilt, KeyOf;
    ghost var t0 := sock.kernel.table;
    ghost var base := t0 - {KeyOf(p.Server())};
    NothingBuilt();
    NothingOwned(t0);
    var failed := sock.SetRoutes(p, t0);
    up := !failed;
    ghost var total := p.Size();
    var i := 0;
    while up && i < |dynamics|
      invariant 0 <= i <= |dynamics|
      invariant |sock.installed| <= total && total + Count(dynamics[i..]) <= 0xffff_ffff
      invariant AllBuilt(sock.installed) && (up ==> sock.open)
      invariant !up ==> !AllBuilt([p.Server()] + p.Splits()) || !sock.kernel.Flawless()
      invariant sock.rollbackFailed ==> old(sock.rollbackFailed) || !sock.kernel.Willing()
      invariant up && sock.Untroubled() ==> Owned(sock.kernel.table, base, sock.installed)
      invariant !up && sock.Untroubled() ==>
                  sock.installed == [] && (sock.kernel.table == t0 || sock.kernel.table == base)
    {
      assert dynamics[i..][1..] == dynamics[i + 1..];
      var _ := sock.AddDynamicRoutes(dynamics[i].ips, dynamics[i].throughTunnel, base);
      total := total + |dynamics[i].ips|;
      i := i + 1;
    }
    if !up { NothingOwned(sock.kernel.table); }
    sock.ResetRoutes(if up then base else sock.kernel.table);
  }

  lemma NothingChanged(t: Table, inst: seq<Route>)
    ensures Kept(t, inst, t, inst)
  {
  }

  lemma NothingBuilt()
    ensures AllBuilt([])
  {
  }

  lemma NothingOwned(t: Table)
    ensures Owned(t, t, [])
  {
  }

  function Count(dynamics: seq<Dynamic>): nat {
    if dynamics == [] then 0 else |dynamics[0].ips| + Count(dynamics[1..])
  }
}
