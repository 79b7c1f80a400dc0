/** What a batch of route requests does to the kernel table and to the record of installed
    routes, for every way the kernel may answer. */
module RouteBatch {
  import opened Bits
  import opened Wrappers
  import opened RouteMessage

  datatype Kind = Add | Delete

  datatype Route = Route(kind: Kind, ifidx: int, dst: seq<byte>, mask: Option<seq<byte>>, gateway: seq<byte>)

  datatype Key = Key(dst: seq<byte>, mask: Option<seq<byte>>)

  datatype Entry = Entry(ifidx: int, gateway: seq<byte>)

  type Table = map<Key, Entry>

  /** The kernel knows a route by destination and effective mask. */
  function KeyOf(r: Route): Key {
    Key(Canonical(r.dst), EffectiveMask(r.mask))
  }

  /** What the kernel keeps; it sees sixteen bits of the interface index. */
  function EntryOf(r: Route): Entry {
    Entry(r.ifidx % 0x1_0000, Canonical(r.gateway))
  }

  function MaskBytes(mask: Option<seq<byte>>): seq<byte> {
    match mask case None => [] case Some(m) => m
  }

  predicate SameRoute(a: Route, b: Route) {
    && a.ifidx == b.ifidx && Canonical(a.dst) == Canonical(b.dst)
    && MaskBytes(a.mask) == MaskBytes(b.mask) && Canonical(a.gateway) == Canonical(b.gateway)
  }

  lemma SameRouteSameKey(a: Route, b: Route)
    requires SameRoute(a, b)
    requires a.mask != Some([]) && b.mask != Some([])
    ensures KeyOf(a) == KeyOf(b)
  {
  }

  // ----- fates

  /** Done changed the table; Skipped met the state it asks for (the route exists already, or is
      already gone); Failed did neither. */
  datatype Fate = Done | Skipped | Failed

  predicate LawfulStep(t: Table, r: Route, f: Fate) {
    match f
    case Done => r.kind.Delete? <==> KeyOf(r) in t
    case Skipped => r.kind.Add? <==> KeyOf(r) in t
    case Failed => true
  }

  function TableStep(t: Table, r: Route, f: Fate): Table {
    if !f.Done? then t
    else if r.kind.Add? then t[KeyOf(r) := EntryOf(r)] else t - {KeyOf(r)}
  }

  /** Removes the last route equal to r, if there is one. */
  function Remove(installed: seq<Route>, r: Route): (res: seq<Route>)
    ensures |res| <= |installed|
  {
    if installed == [] then []
    else
      var n := |installed| - 1;
      if SameRoute(installed[n], r) then installed[..n]
      else Remove(installed[..n], r) + [installed[n]]
  }

  function InstalledStep(installed: seq<Route>, r: Route, f: Fate): seq<Route> {
    if !f.Done? then installed
    else if r.kind.Add? then installed + [r] else Remove(installed, r)
  }

  function TableAfter(t: Table, rs: seq<Route>, fs: seq<Fate>): Table
    requires |rs| == |fs|
  {
    if rs == [] then t
    else
      var n := |rs| - 1;
      TableStep(TableAfter(t, rs[..n], fs[..n]), rs[n], fs[n])
  }

  predicate Lawful(t: Table, rs: seq<Route>, fs: seq<Fate>)
  {
    |rs| == |fs| &&
    (rs == [] ||
     (var n := |rs| - 1;
      Lawful(t, rs[..n], fs[..n]) && LawfulStep(TableAfter(t, rs[..n], fs[..n]), rs[n], fs[n])))
  }

  function InstalledAfter(installed: seq<Route>, rs: seq<Route>, fs: seq<Fate>): seq<Route>
    requires |rs| == |fs|
  {
    if rs == [] then installed
    else
      var n := |rs| - 1;
      InstalledStep(InstalledAfter(installed, rs[..n], fs[..n]), rs[n], fs[n])
  }

  /** The routes a batch added. */
  function Added(rs: seq<Route>, fs: seq<Fate>): (a: seq<Route>)
    requires |rs| == |fs|
    ensures forall i :: 0 <= i < |a| ==> a[i].kind.Add? && a[i] in rs
  {
    if rs == [] then []
    else
      var n := |rs| - 1;
      Added(rs[..n], fs[..n]) + if rs[n].kind.Add? && fs[n].Done? then [rs[n]] else []
  }

  function AsDelete(r: Route): Route {
    r.(kind := Delete)
  }

  function AsDeletes(rs: seq<Route>): (ds: seq<Route>)
    ensures |ds| == |rs|
    ensures forall i :: 0 <= i < |rs| ==> ds[i] == AsDelete(rs[i])
  {
    seq(|rs|, i requires 0 <= i < |rs| => AsDelete(rs[i]))
  }

  predicate AddOnly(rs: seq<Route>) {
    forall i :: 0 <= i < |rs| ==> rs[i].kind.Add?
  }

  /** The builder has a message for the route. */
  predicate WellBuilt(r: Route) {
    Buildable(r.ifidx, r.dst, r.mask, r.gateway)
  }

  predicate AllBuilt(rs: seq<Route>) {
    forall i :: 0 <= i < |rs| ==> WellBuilt(rs[i])
  }

  predicate NoFailure(fs: seq<Fate>) {
    Failed !in fs
  }

  // ----- steps at either end

  lemma SnocStep(t: Table, inst: seq<Route>, rs: seq<Route>, fs: seq<Fate>, r: Route, f: Fate)
    requires |rs| == |fs|
    ensures TableAfter(t, rs + [r], fs + [f]) == TableStep(TableAfter(t, rs, fs), r, f)
    ensures InstalledAfter(inst, rs + [r], fs + [f]) == InstalledStep(InstalledAfter(inst, rs, fs), r, f)
    ensures Lawful(t, rs + [r], fs + [f]) <==> Lawful(t, rs, fs) && LawfulStep(TableAfter(t, rs, fs), r, f)
    ensures Added(rs + [r], fs + [f]) == Added(rs, fs) + if r.kind.Add? && f.Done? then [r] else []
  {
    assert (rs + [r])[..|rs|] == rs && (fs + [f])[..|fs|] == fs;
  }

  lemma NoRequests(t: Table, inst: seq<Route>)
    ensures TableAfter(t, [], []) == t && InstalledAfter(inst, [], []) == inst
    ensures Lawful(t, [], []) && Added([], []) == []
  {
  }

  lemma {:induction false} ConsStep(t: Table, inst: seq<Route>, r: Route, f: Fate, rs: seq<Route>, fs: seq<Fate>)
    requires |rs| == |fs|
    ensures TableAfter(t, [r] + rs, [f] + fs) == TableAfter(TableStep(t, r, f), rs, fs)
    ensures InstalledAfter(inst, [r] + rs, [f] + fs) == InstalledAfter(InstalledStep(inst, r, f), rs, fs)
    ensures Lawful(t, [r] + rs, [f] + fs) <==> LawfulStep(t, r, f) && Lawful(TableStep(t, r, f), rs, fs)
    ensures Added([r] + rs, [f] + fs) == (if r.kind.Add? && f.Done? then [r] else []) + Added(rs, fs)
    decreases |rs|
  {
    hide TableAfter, InstalledAfter, Lawful, Added, TableStep, InstalledStep, LawfulStep;
    if rs == [] {
      NoRequests(t, inst);
      NoRequests(TableStep(t, r, f), InstalledStep(inst, r, f));
      SnocStep(t, inst, [], [], r, f);
      assert [] + [r] == [r] + rs && [] + [f] == [f] + fs;
    } else {
      var n := |rs| - 1;
      ConsStep(t, inst, r, f, rs[..n], fs[..n]);
      SnocStep(t, inst, [r] + rs[..n], [f] + fs[..n], rs[n], fs[n]);
      assert ([r] + rs[..n]) + [rs[n]] == [r] + rs;
      assert ([f] + fs[..n]) + [fs[n]] == [f] + fs;
      SnocStep(TableStep(t, r, f), InstalledStep(inst, r, f), rs[..n], fs[..n], rs[n], fs[n]);
      assert rs[..n] + [rs[n]] == rs && fs[..n] + [fs[n]] == fs;
    }
  }

  // ----- what we own

  predicate DistinctKeys(rs: seq<Route>) {
    forall i, j :: 0 <= i < j < |rs| ==> KeyOf(rs[i]) != KeyOf(rs[j])
  }

  predicate Masked(rs: seq<Route>) {
    forall i :: 0 <= i < |rs| ==> rs[i].mask != Some([])
  }

  ghost function Keys(rs: seq<Route>): (s: set<Key>) {
    set i | 0 <= i < |rs| :: KeyOf(rs[i])
  }

  /** The table is somebody else's base plus exactly the installed routes, none listed twice. */
  ghost predicate Owned(t: Table, base: Table, installed: seq<Route>) {
    && Masked(installed) && DistinctKeys(installed)
    && (forall k :: k in base ==> k in t && t[k] == base[k])
    && (forall i :: 0 <= i < |installed| ==>
          KeyOf(installed[i]) !in base && KeyOf(installed[i]) in t && t[KeyOf(installed[i])] == EntryOf(installed[i]))
    && (forall k :: k in t ==> k in base || k in Keys(installed))
  }

  lemma {:induction false} RemoveAbsent(inst: seq<Route>, r: Route)
    requires Masked(inst) && r.mask != Some([])
    requires forall i :: 0 <= i < |inst| ==> KeyOf(inst[i]) != KeyOf(r)
    ensures Remove(inst, r) == inst
  {
    hide KeyOf, SameRoute;
    if inst != [] {
      var n := |inst| - 1;
      if SameRoute(inst[n], r) { SameRouteSameKey(inst[n], r); }
      RemoveAbsent(inst[..n], r);
    }
  }

  /** Removing takes out the last equal entry and nothing else. */
  lemma {:induction false} RemovePresent(a: seq<Route>, x: Route, b: seq<Route>, r: Route)
    requires SameRoute(x, r) && forall i :: 0 <= i < |b| ==> !SameRoute(b[i], r)
    ensures Remove(a + [x] + b, r) == a + b
    decreases |b|
  {
    hide SameRoute;
    var all := a + [x] + b;
    if b == [] {
      assert all[..|a|] == a && all[|a|] == x && a + b == a;
    } else {
      var n, m := |all| - 1, |b| - 1;
      assert all[n] == b[m] && all[..n] == a + [x] + b[..m];
      RemovePresent(a, x, b[..m], r);
      assert (a + b[..m]) + [b[m]] == a + b;
    }
  }

  /** What is taken out is the last entry with the same interface, destination, mask bytes and gateway;
      without one nothing is. */
  lemma RemoveLast(inst: seq<Route>, r: Route)
    ensures (forall i :: 0 <= i < |inst| ==>
               !(inst[i].ifidx == r.ifidx && Canonical(inst[i].dst) == Canonical(r.dst)
                 && MaskBytes(inst[i].mask) == MaskBytes(r.mask) && Canonical(inst[i].gateway) == Canonical(r.gateway)))
            ==> Remove(inst, r) == inst
    ensures forall i :: 0 <= i < |inst|
              && inst[i].ifidx == r.ifidx && Canonical(inst[i].dst) == Canonical(r.dst)
              && MaskBytes(inst[i].mask) == MaskBytes(r.mask) && Canonical(inst[i].gateway) == Canonical(r.gateway)
              && (forall j :: i < j < |inst| ==> !SameRoute(inst[j], r))
              ==> Remove(inst, r) == inst[..i] + inst[i + 1..]
  {
    hide Canonical;
    if forall i :: 0 <= i < |inst| ==> !SameRoute(inst[i], r) { RemoveUnlike(inst, r); }
    forall i | 0 <= i < |inst| && SameRoute(inst[i], r) && (forall j :: i < j < |inst| ==> !SameRoute(inst[j], r))
      ensures Remove(inst, r) == inst[..i] + inst[i + 1..]
    {
      assert inst == inst[..i] + [inst[i]] + inst[i + 1..];
      RemovePresent(inst[..i], inst[i], inst[i + 1..], r);
    }
  }

  /** Other routes with distinct keys are not the same. */
  lemma OthersDiffer(a: seq<Route>, x: Route, b: seq<Route>, r: Route)
    requires Masked(a + [x] + b) && DistinctKeys(a + [x] + b) && SameRoute(x, r) && r.mask != Some([])
    ensures forall i :: 0 <= i < |a| ==> !SameRoute(a[i], r)
    ensures forall i :: 0 <= i < |b| ==> !SameRoute(b[i], r)
  {
    hide KeyOf, SameRoute;
    var all := a + [x] + b;
    assert all[|a|] == x;
    SameRouteSameKey(x, r);
    forall i | 0 <= i < |a| ensures !SameRoute(a[i], r) {
      assert all[i] == a[i];
      if SameRoute(a[i], r) { SameRouteSameKey(a[i], r); }
    }
    forall i | 0 <= i < |b| ensures !SameRoute(b[i], r) {
      assert all[|a| + 1 + i] == b[i];
      if SameRoute(b[i], r) { SameRouteSameKey(b[i], r); }
    }
  }

  /** A table with routes put over it. */
  function Overlay(t: Table, a: seq<Route>): Table {
    if a == [] then t
    else Overlay(t, a[..|a| - 1])[KeyOf(a[|a| - 1]) := EntryOf(a[|a| - 1])]
  }

  predicate Fresh(t: Table, a: seq<Route>) {
    DistinctKeys(a) && forall i :: 0 <= i < |a| ==> KeyOf(a[i]) !in t
  }

  lemma {:induction false} OverlayHolds(t: Table, a: seq<Route>)
    requires Fresh(t, a)
    ensures forall k :: k in t ==> k in Overlay(t, a) && Overlay(t, a)[k] == t[k]
    ensures forall i :: 0 <= i < |a| ==> KeyOf(a[i]) in Overlay(t, a) && Overlay(t, a)[KeyOf(a[i])] == EntryOf(a[i])
    ensures Overlay(t, a).Keys == t.Keys + Keys(a)
  {
    hide KeyOf, EntryOf;
    if a != [] {
      var n := |a| - 1;
      OverlayHolds(t, a[..n]);
      KeysSnoc(a);
      forall i | 0 <= i < |a|
        ensures KeyOf(a[i]) in Overlay(t, a) && Overlay(t, a)[KeyOf(a[i])] == EntryOf(a[i])
      {
        if i < n { assert a[..n][i] == a[i]; }
      }
    }
  }

  /** What a batch of ADDs has done, whatever happened to each of them. */
  lemma {:induction false} AddsEffect(t: Table, inst: seq<Route>, rs: seq<Route>, fs: seq<Fate>)
    requires Lawful(t, rs, fs) && AddOnly(rs)
    ensures |rs| == |fs| && Fresh(t, Added(rs, fs))
    ensures TableAfter(t, rs, fs) == Overlay(t, Added(rs, fs))
    ensures InstalledAfter(inst, rs, fs) == inst + Added(rs, fs)
  {
    hide KeyOf, EntryOf, TableAfter, InstalledAfter, Lawful, Added, Fresh, Overlay;
    LawfulSize(t, rs, fs);
    if rs == [] {
      NoRequests(t, inst);
      NothingAdded(t);
      assert inst + [] == inst;
    } else {
      var n := |rs| - 1;
      assert rs == rs[..n] + [rs[n]] && fs == fs[..n] + [fs[n]];
      SnocStep(t, inst, rs[..n], fs[..n], rs[n], fs[n]);
      AddsEffect(t, inst, rs[..n], fs[..n]);
      var a := Added(rs[..n], fs[..n]);
      if fs[n].Done? {
        FreshSnoc(t, a, rs[n]);
      } else {
        assert a + [] == a;
      }
    }
  }

  lemma NothingAdded(t: Table)
    ensures Fresh(t, []) && Overlay(t, []) == t
  {
  }

  lemma FreshSnoc(t: Table, a: seq<Route>, r: Route)
    requires Fresh(t, a) && KeyOf(r) !in Overlay(t, a)
    ensures Fresh(t, a + [r])
    ensures Overlay(t, a + [r]) == Overlay(t, a)[KeyOf(r) := EntryOf(r)]
  {
    hide KeyOf, EntryOf;
    OverlayHolds(t, a);
    var b := a + [r];
    assert b[..|a|] == a;
    forall i, j | 0 <= i < j < |b| ensures KeyOf(b[i]) != KeyOf(b[j]) {
      assert b[i] == a[i];
      assert KeyOf(a[i]) in Overlay(t, a);
    }
  }

  /** A batch of ADDs leaves us owning exactly what it added besides what we owned; routes that
      were there already stay somebody else's. */
  lemma AddsKeepOwned(t: Table, base: Table, inst: seq<Route>, rs: seq<Route>, fs: seq<Fate>)
    requires Owned(t, base, inst) && Lawful(t, rs, fs) && AddOnly(rs) && Masked(rs)
    ensures Owned(TableAfter(t, rs, fs), base, InstalledAfter(inst, rs, fs))
  {
    hide KeyOf, EntryOf, Added, TableAfter, InstalledAfter, Lawful, Overlay;
    AddsEffect(t, inst, rs, fs);
    OverlayHolds(t, Added(rs, fs));
    var a, t2 := Added(rs, fs), TableAfter(t, rs, fs);
    ConcatKeys(inst, a);
    var all := inst + a;
    forall i | 0 <= i < |all|
      ensures all[i].mask != Some([])
      ensures KeyOf(all[i]) !in base && KeyOf(all[i]) in t2 && t2[KeyOf(all[i])] == EntryOf(all[i])
    {
      if i < |inst| { assert all[i] == inst[i]; } else { assert all[i] == a[i - |inst|]; }
    }
  }

  lemma ConcatKeys(a: seq<Route>, b: seq<Route>)
    requires DistinctKeys(a) && DistinctKeys(b)
    ensures Keys(a + b) == Keys(a) + Keys(b)
    ensures (forall i, j :: 0 <= i < |a| && 0 <= j < |b| ==> KeyOf(a[i]) != KeyOf(b[j])) ==> DistinctKeys(a + b)
  {
    hide KeyOf;
    ConcatKeysAny(a, b);
  }

  /** Deleting present routes with distinct keys, none failing, takes exactly those out. */
  lemma {:induction false} DeletesEffect(t: Table, a: seq<Route>, fs: seq<Fate>)
    requires DistinctKeys(a) && (forall i :: 0 <= i < |a| ==> KeyOf(a[i]) in t)
    requires Lawful(t, AsDeletes(a), fs) && NoFailure(fs)
    ensures TableAfter(t, AsDeletes(a), fs) == t - Keys(a)
    ensures forall i :: 0 <= i < |fs| ==> fs[i] == Done
  {
    hide KeyOf;
    if a != [] {
      var n := |a| - 1;
      assert AsDeletes(a)[..n] == AsDeletes(a[..n]);
      DeletesEffect(t, a[..n], fs[..n]);
      DeleteKey(a[n]);
      assert Keys(a) == Keys(a[..n]) + {KeyOf(a[n])} by { KeysSnoc(a); }
      var t1 := TableAfter(t, AsDeletes(a[..n]), fs[..n]);
      assert KeyOf(a[n]) !in Keys(a[..n]);
      assert KeyOf(a[n]) in t1;
      assert fs[n] != Skipped;
      assert fs[n] in fs;
      assert fs[n] == Done;
    }
  }

  lemma DeleteKey(r: Route)
    ensures KeyOf(AsDelete(r)) == KeyOf(r) && SameRoute(r, AsDelete(r))
  {
  }

  lemma KeysSnoc(a: seq<Route>)
    requires a != []
    ensures Keys(a) == Keys(a[..|a| - 1]) + {KeyOf(a[|a| - 1])}
  {
    hide KeyOf;
    var n := |a| - 1;
    forall k | k in Keys(a) ensures k in Keys(a[..n]) + {KeyOf(a[n])} {
      var i :| 0 <= i < |a| && k == KeyOf(a[i]);
      if i < n { assert a[..n][i] == a[i]; }
    }
    forall k | k in Keys(a[..n]) ensures k in Keys(a) {
      var i :| 0 <= i < n && k == KeyOf(a[..n][i]);
      assert a[i] == a[..n][i];
    }
  }

  /** Deleting the last-listed routes again leaves the earlier list, whatever it is. */
  lemma {:induction false} DeletesUnlist(inst: seq<Route>, a: seq<Route>, fs: seq<Fate>)
    requires |fs| == |a| && (forall i :: 0 <= i < |fs| ==> fs[i] == Done)
    requires Masked(a) && DistinctKeys(a)
    ensures InstalledAfter(inst + a, AsDeletes(a), fs) == inst
    decreases |a|
  {
    hide InstalledAfter, TableAfter, Lawful, Added, Masked, DistinctKeys, Remove, TableStep, LawfulStep, AsDeletes;
    if a == [] {
      NoRequests(map[], inst);
      assert inst + a == inst && AsDeletes(a) == [];
    } else {
      var x, rest := a[0], a[1..];
      assert AsDeletes(a) == [AsDelete(x)] + AsDeletes(rest);
      assert fs == [Done] + fs[1..];
      UnlistFirst(inst, a);
      ConsStep(map[], inst + a, AsDelete(x), Done, AsDeletes(rest), fs[1..]);
      DeletesUnlist(inst, rest, fs[1..]);
    }
  }

  lemma UnlistFirst(inst: seq<Route>, a: seq<Route>)
    requires a != [] && Masked(a) && DistinctKeys(a)
    ensures Remove(inst + a, AsDelete(a[0])) == inst + a[1..]
    ensures Masked(a[1..]) && DistinctKeys(a[1..])
  {
    hide KeyOf, SameRoute, Remove;
    var x, rest := a[0], a[1..];
    assert inst + a == inst + [x] + rest && a == [] + [x] + rest;
    DeleteKey(x);
    OthersDiffer([], x, rest, AsDelete(x));
    RemovePresent(inst, x, rest, AsDelete(x));
  }

  /** Is a listed route the same as one of these? */
  predicate Lists(inst: seq<Route>, a: seq<Route>) {
    exists i, j :: 0 <= i < |inst| && 0 <= j < |a| && SameRoute(inst[i], a[j])
  }

  /** Deleting routes that are not listed leaves the list. */
  lemma {:induction false} DeletesUnlisted(inst: seq<Route>, a: seq<Route>, fs: seq<Fate>)
    requires |fs| == |a| && !Lists(inst, a)
    ensures InstalledAfter(inst, AsDeletes(a), fs) == inst
    decreases |a|
  {
    hide SameRoute, Remove;
    if a != [] {
      var n := |a| - 1;
      assert forall i, j :: 0 <= i < |inst| && 0 <= j < n ==> !SameRoute(inst[i], a[..n][j]);
      DeletesUnlisted(inst, a[..n], fs[..n]);
      assert AsDeletes(a)[..n] == AsDeletes(a[..n]);
      forall i | 0 <= i < |inst| ensures !SameRoute(inst[i], AsDelete(a[n])) {
        SameAsDelete(inst[i], a[n]);
      }
      RemoveUnlike(inst, AsDelete(a[n]));
    }
  }

  lemma SameAsDelete(x: Route, r: Route)
    ensures SameRoute(x, AsDelete(r)) <==> SameRoute(x, r)
  {
  }

  /** Removing a listed route shortens the list. */
  lemma {:induction false} RemoveShortens(inst: seq<Route>, i: nat, r: Route)
    requires i < |inst| && SameRoute(inst[i], r)
    ensures |Remove(inst, r)| == |inst| - 1
  {
    hide SameRoute;
    var n := |inst| - 1;
    if !SameRoute(inst[n], r) {
      assert inst[..n][i] == inst[i];
      RemoveShortens(inst[..n], i, r);
    }
  }

  lemma SubList(inst: seq<Route>, x: Route, rest: seq<Route>)
    requires Masked(inst + [x] + rest) && DistinctKeys(inst + [x] + rest)
    ensures Masked(inst + rest) && DistinctKeys(inst + rest)
  {
    hide KeyOf;
    var all, some := inst + [x] + rest, inst + rest;
    assert forall i :: 0 <= i < |some| ==> some[i] == all[if i < |inst| then i else i + 1];
  }

  /** The kernel deletes by destination and effective mask, the record by interface, gateway and the
      bytes of the mask too. One DELETE whose success is recorded leaves the record exact if and only
      if no listed route has its key without being the same route. */
  lemma DeleteStaysOwned(t: Table, base: Table, inst: seq<Route>, r: Route)
    requires Owned(t, base, inst) && r.kind.Delete? && r.mask != Some([]) && KeyOf(r) in t
    ensures Owned(TableStep(t, r, Done), base - {KeyOf(r)}, InstalledStep(inst, r, Done)) <==>
            forall i :: 0 <= i < |inst| && KeyOf(inst[i]) == KeyOf(r) ==> SameRoute(inst[i], r)
  {
    hide KeyOf, EntryOf, SameRoute, Remove;
    if i :| 0 <= i < |inst| && KeyOf(inst[i]) == KeyOf(r) {
      var a, b := inst[..i], inst[i + 1..];
      assert inst == a + [inst[i]] + b;
      if SameRoute(inst[i], r) {
        OthersDiffer(a, inst[i], b, r);
        RemovePresent(a, inst[i], b, r);
        OwnedWithout(t, base, inst, i);
        assert base - {KeyOf(r)} == base;
      } else {
        RemoveOther(inst, i, r);
      }
    } else {
      RemoveAbsent(inst, r);
    }
  }

  lemma OwnedWithout(t: Table, base: Table, inst: seq<Route>, i: nat)
    requires Owned(t, base, inst) && i < |inst|
    ensures Owned(t - {KeyOf(inst[i])}, base, inst[..i] + inst[i + 1..])
  {
    hide KeyOf, EntryOf, DistinctKeys, Masked;
    var x, rest, t2 := inst[i], inst[..i] + inst[i + 1..], t - {KeyOf(inst[i])};
    assert inst == inst[..i] + [x] + inst[i + 1..];
    SubList(inst[..i], x, inst[i + 1..]);
    forall j | 0 <= j < |rest|
      ensures KeyOf(rest[j]) !in base && KeyOf(rest[j]) in t2 && t2[KeyOf(rest[j])] == EntryOf(rest[j])
    {
      var k := if j < i then j else j + 1;
      assert rest[j] == inst[k];
      KeysDiffer(inst, k, i);
    }
    forall k | k in t2 ensures k in base || k in Keys(rest) {
      if k !in base {
        var j :| 0 <= j < |inst| && k == KeyOf(inst[j]);
        assert rest[if j < i then j else j - 1] == inst[j];
      }
    }
  }

  lemma KeysDiffer(inst: seq<Route>, i: nat, j: nat)
    requires DistinctKeys(inst) && i < |inst| && j < |inst| && i != j
    ensures KeyOf(inst[i]) != KeyOf(inst[j])
  {
  }

  /** A listed route that shares the key but is not the same is not removed. */
  lemma RemoveOther(inst: seq<Route>, i: nat, r: Route)
    requires Masked(inst) && DistinctKeys(inst) && r.mask != Some([])
    requires i < |inst| && KeyOf(inst[i]) == KeyOf(r) && !SameRoute(inst[i], r)
    ensures Remove(inst, r) == inst
  {
    hide KeyOf, SameRoute;
    forall j | 0 <= j < |inst| ensures !SameRoute(inst[j], r) {
      if SameRoute(inst[j], r) {
        SameRouteSameKey(inst[j], r);
      }
    }
    RemoveUnlike(inst, r);
  }

  lemma {:induction false} RemoveUnlike(inst: seq<Route>, r: Route)
    requires forall j :: 0 <= j < |inst| ==> !SameRoute(inst[j], r)
    ensures Remove(inst, r) == inst
  {
    hide SameRoute;
    if inst != [] { RemoveUnlike(inst[..|inst| - 1], r); }
  }

  // ----- transactions

  /** A failed batch of ADDs whose rollback goes through leaves the table as it was. If the results had
      been recorded (failure by answer) so is the record, whatever it was; if not (failure by write), it
      is if it did not list a route that the batch has added. */
  lemma AddBatchAtomic(t: Table, inst: seq<Route>, rs: seq<Route>, fs: seq<Fate>, undo: seq<Fate>)
    requires AddOnly(rs) && Masked(rs) && |rs| == |fs| && Lawful(t, rs, fs)
    requires Lawful(TableAfter(t, rs, fs), AsDeletes(Added(rs, fs)), undo) && NoFailure(undo)
    ensures TableAfter(TableAfter(t, rs, fs), AsDeletes(Added(rs, fs)), undo) == t
    ensures InstalledAfter(InstalledAfter(inst, rs, fs), AsDeletes(Added(rs, fs)), undo) == inst
    ensures !Lists(inst, Added(rs, fs)) ==> InstalledAfter(inst, AsDeletes(Added(rs, fs)), undo) == inst
  {
    hide KeyOf, EntryOf, Added, TableAfter, InstalledAfter, Lawful, Lists;
    AddsEffect(t, inst, rs, fs);
    OverlayHolds(t, Added(rs, fs));
    var a, mid := Added(rs, fs), TableAfter(t, rs, fs);
    LawfulSize(mid, AsDeletes(a), undo);
    DeletesEffect(mid, a, undo);
    assert mid - Keys(a) == t;
    DeletesUnlist(inst, a, undo);
    if !Lists(inst, a) { DeletesUnlisted(inst, a, undo); }
  }

  /** An exact record lists nothing that is not in the table. */
  lemma OwnedLists(t: Table, base: Table, inst: seq<Route>, a: seq<Route>)
    requires Owned(t, base, inst) && Masked(a) && Fresh(t, a)
    ensures !Lists(inst, a)
  {
    hide KeyOf, EntryOf, SameRoute;
    if i, j :| 0 <= i < |inst| && 0 <= j < |a| && SameRoute(inst[i], a[j]) {
      SameRouteSameKey(inst[i], a[j]);
      assert false;
    }
  }

  lemma LawfulSize(t: Table, rs: seq<Route>, fs: seq<Fate>)
    requires Lawful(t, rs, fs)
    ensures |rs| == |fs|
  {
  }

  /** Deleting everything we own, none failing, leaves the base. */
  lemma ResetRestores(t: Table, base: Table, inst: seq<Route>, fs: seq<Fate>)
    requires Owned(t, base, inst)
    requires Lawful(t, AsDeletes(inst), fs) && NoFailure(fs)
    ensures TableAfter(t, AsDeletes(inst), fs) == base
  {
    hide KeyOf, EntryOf, TableAfter, Lawful;
    LawfulSize(t, AsDeletes(inst), fs);
    DeletesEffect(t, inst, fs);
    assert t - Keys(inst) == base;
  }

  // ----- whole batches

  /** How a batch went. Untried: it failed before anything was written. Success and Failure tell what
      became of each request tried; applied says whether the results were recorded before the failure
      was handled, and undo what became of the rollback's deletes. */
  datatype BatchRun =
    | Untried
    | Success(fates: seq<Fate>)
    | Failure(fates: seq<Fate>, applied: bool, undo: seq<Fate>)

  /** The requests tried. */
  function Tried(rs: seq<Route>, run: BatchRun): (ts: seq<Route>)
    requires !run.Untried? && |run.fates| <= |rs|
    ensures |ts| == |run.fates|
  {
    rs[..|run.fates|]
  }

  /** Every run a lawful kernel allows in which the rollback goes through. A batch with a malformed route
      is not tried. A batch that fails with its
      results unrecorded ends at the request whose write was refused. */
  predicate Possible(t: Table, rs: seq<Route>, run: BatchRun) {
    match run
    case Untried => true
    case Success(fates) => AllBuilt(rs) && |fates| == |rs| && Lawful(t, rs, fates) && NoFailure(fates)
    case Failure(fates, applied, undo) =>
      && AllBuilt(rs) && |fates| <= |rs| && Failed in fates
      && (if applied then |fates| == |rs| else fates[|fates| - 1] == Failed)
      && Lawful(t, Tried(rs, run), fates)
      && Lawful(TableAfter(t, Tried(rs, run), fates), AsDeletes(Added(Tried(rs, run), fates)), undo)
      && NoFailure(undo)
  }

  function RunTable(t: Table, rs: seq<Route>, run: BatchRun): Table
    requires Possible(t, rs, run)
  {
    match run
    case Untried => t
    case Success(fates) => TableAfter(t, rs, fates)
    case Failure(fates, _, undo) =>
      TableAfter(TableAfter(t, Tried(rs, run), fates), AsDeletes(Added(Tried(rs, run), fates)), undo)
  }

  function RunInstalled(t: Table, inst: seq<Route>, rs: seq<Route>, run: BatchRun): seq<Route>
    requires Possible(t, rs, run)
  {
    match run
    case Untried => inst
    case Success(fates) => InstalledAfter(inst, rs, fates)
    case Failure(fates, applied, undo) =>
      InstalledAfter(if applied then InstalledAfter(inst, Tried(rs, run), fates) else inst,
                     AsDeletes(Added(Tried(rs, run), fates)), undo)
  }

  /** The record lists a route that the batch can add and then, its next write refused, take back. */
  ghost predicate Exposed(t: Table, inst: seq<Route>, rs: seq<Route>) {
    AllBuilt(rs) &&
    exists i, j :: 0 <= i < |inst| && 0 <= j < |rs| - 1 && KeyOf(rs[j]) !in t && SameRoute(inst[i], rs[j])
  }

  /** A failed batch of ADDs leaves the table as it was, and the record too unless that is exposed. */
  lemma AddRunFails(t: Table, inst: seq<Route>, rs: seq<Route>, run: BatchRun)
    requires AddOnly(rs) && Masked(rs) && Possible(t, rs, run) && !run.Success?
    ensures RunTable(t, rs, run) == t
    ensures !Exposed(t, inst, rs) ==> RunInstalled(t, inst, rs, run) == inst
  {
    hide KeyOf, EntryOf, Added, TableAfter, InstalledAfter, Lawful, Lists, Exposed, SameRoute, WellBuilt;
    if run.Failure? {
      AddBatchAtomic(t, inst, Tried(rs, run), run.fates, run.undo);
      if !run.applied && !Exposed(t, inst, rs) { NotListed(t, inst, rs, run); }
    }
  }

  /** What a batch added before its last request was refused comes before the last of its routes. */
  lemma NotListed(t: Table, inst: seq<Route>, rs: seq<Route>, run: BatchRun)
    requires AddOnly(rs) && Possible(t, rs, run) && run.Failure? && !run.applied && !Exposed(t, inst, rs)
    ensures !Lists(inst, Added(Tried(rs, run), run.fates))
  {
    hide KeyOf, EntryOf, Added, TableAfter, InstalledAfter, Lawful, SameRoute, WellBuilt, Overlay;
    var ts, fs := Tried(rs, run), run.fates;
    var n := |fs| - 1;
    assert ts == ts[..n] + [ts[n]] && fs == fs[..n] + [fs[n]];
    SnocStep(t, inst, ts[..n], fs[..n], ts[n], fs[n]);
    var a := Added(ts, fs);
    assert a == Added(ts[..n], fs[..n]);
    AddsEffect(t, inst, ts, fs);
    forall i, j | 0 <= i < |inst| && 0 <= j < |a| ensures !SameRoute(inst[i], a[j]) {
      var k :| 0 <= k < n && ts[..n][k] == a[j];
      assert rs[k] == a[j];
    }
  }

  function AllFailed(n: nat): (fs: seq<Fate>)
    ensures |fs| == n
  {
    seq(n, _ => Failed)
  }

  lemma {:induction false} AllFailedEffect(t: Table, rs: seq<Route>)
    ensures Lawful(t, rs, AllFailed(|rs|)) && TableAfter(t, rs, AllFailed(|rs|)) == t
    ensures Added(rs, AllFailed(|rs|)) == []
  {
    hide KeyOf, EntryOf;
    if rs != [] {
      var n := |rs| - 1;
      assert AllFailed(n + 1)[..n] == AllFailed(n);
      AllFailedEffect(t, rs[..n]);
    }
  }

  /** All routes before the j-th fail by answer, it succeeds, and the write after it is refused. */
  function RefusedAfter(j: nat): BatchRun {
    Failure(AllFailed(j) + [Done] + [Failed], false, [Done])
  }

  lemma RefusedAfterRun(t: Table, inst: seq<Route>, rs: seq<Route>, j: nat)
    requires AddOnly(rs) && AllBuilt(rs) && j + 1 < |rs| && KeyOf(rs[j]) !in t
    ensures Possible(t, rs, RefusedAfter(j))
    ensures RunInstalled(t, inst, rs, RefusedAfter(j)) == Remove(inst, AsDelete(rs[j]))
  {
    hide KeyOf, EntryOf, Added, TableAfter, InstalledAfter, Lawful, Remove, WellBuilt, AllFailed;
    var before, r, fs := rs[..j], rs[j], AllFailed(j);
    var t1 := t[KeyOf(r) := EntryOf(r)];
    AllFailedEffect(t, before);
    SnocStep(t, inst, before, fs, r, Done);
    SnocStep(t, inst, before + [r], fs + [Done], rs[j + 1], Failed);
    assert rs[..j + 2] == before + [r] + [rs[j + 1]];
    assert [] + [r] == [r] && [r] + [] == [r];
    var d := AsDelete(r);
    DeleteKey(r);
    NoRequests(t1, inst);
    SnocStep(t1, inst, [], [], d, Done);
    assert AsDeletes([r]) == [] + [d] && [] + [Done] == [Done];
  }

  /** A batch of ADDs leaves the record alone in every run in which it fails if and only if the record is
      not exposed to it. */
  lemma AddFailureExactly(t: Table, inst: seq<Route>, rs: seq<Route>)
    requires AddOnly(rs) && Masked(rs)
    ensures (forall run :: Possible(t, rs, run) && !run.Success? ==> RunInstalled(t, inst, rs, run) == inst)
            <==> !Exposed(t, inst, rs)
  {
    hide KeyOf, EntryOf, Possible, RunInstalled, SameRoute, WellBuilt, Remove, RefusedAfter;
    if Exposed(t, inst, rs) {
      var i, j :| 0 <= i < |inst| && 0 <= j < |rs| - 1 && KeyOf(rs[j]) !in t && SameRoute(inst[i], rs[j]);
      RefusedAfterRun(t, inst, rs, j);
      SameAsDelete(inst[i], rs[j]);
      RemoveShortens(inst, i, AsDelete(rs[j]));
      RefusedKind(j);
    } else {
      forall run | Possible(t, rs, run) && !run.Success? ensures RunInstalled(t, inst, rs, run) == inst {
        AddRunFails(t, inst, rs, run);
      }
    }
  }

  lemma RefusedKind(j: nat)
    ensures RefusedAfter(j).Failure?
  {
  }

  /** Every run of a batch of ADDs leaves an exact record exact, and a failed one changes nothing. */
  lemma AddRunKeepsOwned(t: Table, base: Table, inst: seq<Route>, rs: seq<Route>, run: BatchRun)
    requires Owned(t, base, inst) && AddOnly(rs) && Masked(rs) && Possible(t, rs, run)
    ensures Owned(RunTable(t, rs, run), base, RunInstalled(t, inst, rs, run))
    ensures !run.Success? ==> RunTable(t, rs, run) == t && RunInstalled(t, inst, rs, run) == inst
  {
    hide KeyOf, EntryOf, Added, TableAfter, InstalledAfter, Lawful, Owned, WellBuilt, Exposed;
    if run.Success? {
      AddsKeepOwned(t, base, inst, rs, run.fates);
    } else {
      OwnedNotExposed(t, base, inst, rs);
      AddRunFails(t, inst, rs, run);
    }
  }

  lemma OwnedNotExposed(t: Table, base: Table, inst: seq<Route>, rs: seq<Route>)
    requires Owned(t, base, inst) && Masked(rs)
    ensures !Exposed(t, inst, rs)
  {
    hide KeyOf, EntryOf, SameRoute, WellBuilt;
    forall i, j | 0 <= i < |inst| && 0 <= j < |rs| - 1 && SameRoute(inst[i], rs[j]) ensures KeyOf(rs[j]) in t {
      SameRouteSameKey(inst[i], rs[j]);
    }
  }

  // ----- replacing the server's host route

  /** The batch of a new connection: the server's host route is deleted and added again, then the
      split routes are added. */
  function Replacing(server: Route, splits: seq<Route>): seq<Route> {
    [AsDelete(server)] + ([server] + splits)
  }

  /** The part of the table that is not ours after such a batch: the server's route is no longer in it,
      unless its DELETE failed or was not tried. */
  function BaseAfter(base: Table, server: Route, run: BatchRun): Table
    requires run.Untried? || run.fates != []
  {
    if run.Untried? || run.fates[0].Failed? then base else base - {KeyOf(server)}
  }

  predicate ServerRoute(server: Route) {
    server.kind.Add? && server.mask.None?
  }

  lemma TriedSome(t: Table, server: Route, splits: seq<Route>, run: BatchRun)
    requires Possible(t, Replacing(server, splits), run) && !run.Untried?
    ensures 0 < |run.fates| <= |splits| + 2
    ensures run.fates == [run.fates[0]] + run.fates[1..]
    ensures Tried(Replacing(server, splits), run) == [AsDelete(server)] + ([server] + splits)[..|run.fates| - 1]
  {
    hide Lawful;
  }

  lemma OwnedDrop(t: Table, base: Table, inst: seq<Route>, k: Key)
    requires Owned(t, base, inst) && k !in Keys(inst)
    ensures Owned(t - {k}, base - {k}, inst)
  {
    hide KeyOf, EntryOf, DistinctKeys, Masked;
    forall i | 0 <= i < |inst| ensures KeyOf(inst[i]) in Keys(inst) {
    }
  }

  /** If nothing we installed has the server's key, every run of the batch leaves the record exact, and
      a failed one leaves the record as it was and the table with at most the server's route missing. */
  lemma ReplaceKeepsOwned(t: Table, base: Table, inst: seq<Route>, server: Route, splits: seq<Route>, run: BatchRun)
    requires Owned(t, base, inst) && ServerRoute(server) && AddOnly(splits) && Masked(splits)
    requires Possible(t, Replacing(server, splits), run) && KeyOf(server) !in Keys(inst)
    ensures run.Untried? || run.fates != []
    ensures Owned(RunTable(t, Replacing(server, splits), run), BaseAfter(base, server, run),
                  RunInstalled(t, inst, Replacing(server, splits), run))
    ensures !run.Success? ==>
              && RunInstalled(t, inst, Replacing(server, splits), run) == inst
              && (RunTable(t, Replacing(server, splits), run) == t
                  || RunTable(t, Replacing(server, splits), run) == t - {KeyOf(server)})
  {
    hide KeyOf, EntryOf, Added, TableAfter, InstalledAfter, Lawful, Owned, Keys, Remove, SameRoute, WellBuilt,
         AllBuilt, Lists, Fresh, Overlay, TableStep, InstalledStep, LawfulStep;
    if !run.Untried? {
      TriedSome(t, server, splits, run);
      var d, f := AsDelete(server), run.fates[0];
      var rs, fs := ([server] + splits)[..|run.fates| - 1], run.fates[1..];
      var t1 := TableStep(t, d, f);
      assert run.Success? ==> Tried(Replacing(server, splits), run) == Replacing(server, splits);
      ConsStep(t, inst, d, f, rs, fs);
      assert [] + Added(rs, fs) == Added(rs, fs);
      DeleteKey(server);
      OwnedDrop(t, base, inst, KeyOf(server));
      DropAbsent(t, base, inst, server, f);
      var base1 := BaseAfter(base, server, run);
      if run.Success? {
        AddsKeepOwned(t1, base1, inst, rs, fs);
      } else {
        AddsEffect(t1, inst, rs, fs);
        OwnedLists(t1, base1, inst, Added(rs, fs));
        AddBatchAtomic(t1, inst, rs, fs, run.undo);
      }
    }
  }

  /** The DELETE of a key we do not list. */
  lemma DropAbsent(t: Table, base: Table, inst: seq<Route>, server: Route, f: Fate)
    requires Owned(t, base, inst) && ServerRoute(server) && KeyOf(server) !in Keys(inst)
    requires LawfulStep(t, AsDelete(server), f)
    ensures InstalledStep(inst, AsDelete(server), f) == inst
    ensures TableStep(t, AsDelete(server), f) == if f.Failed? then t else t - {KeyOf(server)}
  {
    hide KeyOf, EntryOf, Remove, SameRoute;
    DeleteKey(server);
    forall i | 0 <= i < |inst| ensures KeyOf(inst[i]) in Keys(inst) {
    }
    RemoveAbsent(inst, AsDelete(server));
  }

  /** The write after the DELETE is refused: the DELETE's success is never recorded. */
  function RefusedAfterDelete(): BatchRun {
    Failure([Done, Failed], false, [])
  }

  lemma RefusedRun(t: Table, inst: seq<Route>, server: Route, splits: seq<Route>)
    requires ServerRoute(server) && KeyOf(server) in t && AllBuilt(Replacing(server, splits))
    ensures var run, batch := RefusedAfterDelete(), Replacing(server, splits);
            && Possible(t, batch, run)
            && RunTable(t, batch, run) == t - {KeyOf(server)} && RunInstalled(t, inst, batch, run) == inst
  {
    hide KeyOf, EntryOf, Added, TableAfter, InstalledAfter, Lawful, Remove, SameRoute;
    var d, batch := AsDelete(server), Replacing(server, splits);
    DeleteKey(server);
    NoRequests(t, inst);
    SnocStep(t, inst, [], [], d, Done);
    SnocStep(t, inst, [d], [Done], server, Failed);
    assert [] + [d] == [d] && [] + [Done] == [Done] && [Done] + [Failed] == [Done, Failed];
    assert batch[..2] == [d] + [server];
    assert AsDeletes([]) == [];
    NoRequests(t - {KeyOf(server)}, inst);
  }

  /** If we did install a route with the server's key, that run leaves the record listing a route that
      the kernel has lost. */
  lemma RefusalDrifts(t: Table, base: Table, inst: seq<Route>, server: Route, splits: seq<Route>, base2: Table)
    requires Owned(t, base, inst) && ServerRoute(server) && KeyOf(server) in Keys(inst)
    requires AllBuilt(Replacing(server, splits))
    ensures Possible(t, Replacing(server, splits), RefusedAfterDelete())
    ensures !Owned(RunTable(t, Replacing(server, splits), RefusedAfterDelete()), base2,
                   RunInstalled(t, inst, Replacing(server, splits), RefusedAfterDelete()))
  {
    hide KeyOf, EntryOf, Possible, RunTable, RunInstalled;
    var i :| 0 <= i < |inst| && KeyOf(server) == KeyOf(inst[i]);
    RefusedRun(t, inst, server, splits);
  }

  lemma NotTried(t: Table, inst: seq<Route>, rs: seq<Route>, run: BatchRun)
    requires Possible(t, rs, run) && !AllBuilt(rs)
    ensures run.Untried? && RunTable(t, rs, run) == t && RunInstalled(t, inst, rs, run) == inst
  {
    hide AllBuilt;
  }

  /** Replacing the server's route keeps the record exact in every run if and only if we have installed
      no route with the server's destination as a host, or the batch is malformed and not tried. */
  lemma ReplaceExactly(t: Table, base: Table, inst: seq<Route>, server: Route, splits: seq<Route>)
    requires Owned(t, base, inst) && ServerRoute(server) && AddOnly(splits) && Masked(splits)
    ensures (forall run :: Possible(t, Replacing(server, splits), run) ==>
               && (run.Untried? || run.fates != [])
               && Owned(RunTable(t, Replacing(server, splits), run), BaseAfter(base, server, run),
                        RunInstalled(t, inst, Replacing(server, splits), run)))
            <==> KeyOf(server) !in Keys(inst) || !AllBuilt(Replacing(server, splits))
  {
    hide KeyOf, EntryOf, Added, TableAfter, InstalledAfter, Lawful, Owned, Keys, Possible, RunTable, RunInstalled;
    if !AllBuilt(Replacing(server, splits)) {
      forall run | Possible(t, Replacing(server, splits), run)
        ensures run.Untried? && Owned(RunTable(t, Replacing(server, splits), run), BaseAfter(base, server, run),
                                      RunInstalled(t, inst, Replacing(server, splits), run))
      {
        NotTried(t, inst, Replacing(server, splits), run);
      }
    } else if KeyOf(server) in Keys(inst) {
      RefusalDrifts(t, base, inst, server, splits, base - {KeyOf(server)});
      assert Possible(t, Replacing(server, splits), RefusedAfterDelete());
    } else {
      forall run | Possible(t, Replacing(server, splits), run)
        ensures run.Untried? || run.fates != []
        ensures Owned(RunTable(t, Replacing(server, splits), run), BaseAfter(base, server, run),
                      RunInstalled(t, inst, Replacing(server, splits), run))
      {
        ReplaceKeepsOwned(t, base, inst, server, splits, run);
      }
    }
  }

  /** The server's route as a first connection installs it, and as a second one with another gateway
      does. */
  const BEFORE := Route(Add, 4, [203, 0, 113, 9], None, [192, 168, 0, 1])
  const CHANGED := Route(Add, 4, [203, 0, 113, 9], None, [10, 0, 0, 1])

  /** The state after the first connection. */
  function FirstTable(): Table {
    map[KeyOf(BEFORE) := EntryOf(BEFORE)]
  }

  lemma FirstOwned()
    ensures Owned(FirstTable(), map[], [BEFORE])
  {
    hide KeyOf, EntryOf;
    KeysSnoc([BEFORE]);
  }

  lemma TwiceListed(t: Table, base: Table)
    ensures !Owned(t, base, [BEFORE, CHANGED])
  {
    hide KeyOf, EntryOf;
    SameHost();
    assert KeyOf([BEFORE, CHANGED][0]) == KeyOf([BEFORE, CHANGED][1]);
  }

  /** One way to drift, in full: the gateway has changed, everything succeeds, and the record lists the
      server's route twice. */
  lemma DriftByGateway(base: Table)
    ensures Owned(FirstTable(), map[], [BEFORE])
    ensures Possible(FirstTable(), Replacing(CHANGED, []), Success([Done, Done]))
    ensures RunInstalled(FirstTable(), [BEFORE], Replacing(CHANGED, []), Success([Done, Done])) == [BEFORE, CHANGED]
    ensures !Owned(RunTable(FirstTable(), Replacing(CHANGED, []), Success([Done, Done])), base, [BEFORE, CHANGED])
  {
    hide KeyOf, EntryOf, Remove, SameRoute, TableAfter, InstalledAfter, Lawful, Added, Owned;
    var t, d := FirstTable(), AsDelete(CHANGED);
    FirstOwned();
    SameHost();
    NoRequests(t, [BEFORE]);
    SnocStep(t, [BEFORE], [], [], d, Done);
    SnocStep(t, [BEFORE], [d], [Done], CHANGED, Done);
    assert [] + [d] == [d] && [] + [Done] == [Done] && [Done] + [Done] == [Done, Done];
    assert Replacing(CHANGED, []) == [d] + [CHANGED];
    RemoveStepOne(BEFORE, d);
    TwiceListed(RunTable(t, Replacing(CHANGED, []), Success([Done, Done])), base);
  }

  lemma SameHost()
    ensures KeyOf(BEFORE) == KeyOf(CHANGED) == KeyOf(AsDelete(CHANGED)) && !SameRoute(BEFORE, AsDelete(CHANGED))
  {
    assert Canonical([192, 168, 0, 1]) == [192, 168, 0, 1] && Canonical([10, 0, 0, 1]) == [10, 0, 0, 1];
    assert BEFORE.gateway[0] != CHANGED.gateway[0];
  }

  lemma RemoveStepOne(x: Route, r: Route)
    requires !SameRoute(x, r)
    ensures Remove([x], r) == [x]
  {
    hide SameRoute;
    assert Remove([], r) == [] && [x][..0] == [];
  }

  /** The other way, in full: the same route is replaced, its DELETE succeeds, the next write is
      refused, and the record lists a route that is gone. */
  lemma DriftByRefusal(base: Table)
    ensures Owned(FirstTable(), map[], [BEFORE])
    ensures Possible(FirstTable(), Replacing(BEFORE, []), RefusedAfterDelete())
    ensures RunTable(FirstTable(), Replacing(BEFORE, []), RefusedAfterDelete()) == map[]
    ensures RunInstalled(FirstTable(), [BEFORE], Replacing(BEFORE, []), RefusedAfterDelete()) == [BEFORE]
    ensures !Owned(map[], base, [BEFORE])
  {
    hide KeyOf, EntryOf, TableAfter, InstalledAfter, Lawful, Added, Owned;
    FirstOwned();
    assert KeyOf(BEFORE) in Keys([BEFORE]) by { KeysSnoc([BEFORE]); }
    RefusedRun(FirstTable(), [BEFORE], BEFORE, []);
    var gone: Table := map[];
    assert FirstTable() - {KeyOf(BEFORE)} == gone;
    RefusalDrifts(FirstTable(), map[], [BEFORE], BEFORE, [], base);
  }

  const OTHER := Route(Add, 4, [198, 51, 100, 7], None, [192, 168, 0, 1])

  /** What can follow: the list still names the lost route, a batch of ADDs adds it again, its next write
      is refused, and the rollback takes out an entry that the batch never made. */
  lemma UnlistedByRefusal()
    ensures Exposed(map[], [BEFORE], [BEFORE, OTHER])
    ensures Possible(map[], [BEFORE, OTHER], RefusedAfter(0))
    ensures RunTable(map[], [BEFORE, OTHER], RefusedAfter(0)) == map[]
    ensures RunInstalled(map[], [BEFORE], [BEFORE, OTHER], RefusedAfter(0)) == []
  {
    hide KeyOf, EntryOf, Added, TableAfter, InstalledAfter, Lawful, Remove, MaskOnes;
    var rs := [BEFORE, OTHER];
    assert SameRoute([BEFORE][0], rs[0]);
    RefusedAfterRun(map[], [BEFORE], rs, 0);
    SameAsDelete(BEFORE, BEFORE);
    RemoveShortens([BEFORE], 0, AsDelete(BEFORE));
    AddRunFails(map[], [BEFORE], rs, RefusedAfter(0));
  }

  /** After a successful replacement the server's route is the one asked for, every split route has an
      entry, which is the one asked for if it is the first with its key and the key was free, and everything
      else is as it was. */
  lemma ReplacedPresent(t: Table, server: Route, splits: seq<Route>, fates: seq<Fate>)
    requires ServerRoute(server) && AddOnly(splits)
    requires Possible(t, Replacing(server, splits), Success(fates))
    ensures var t2 := RunTable(t, Replacing(server, splits), Success(fates));
            && KeyOf(server) in t2 && t2[KeyOf(server)] == EntryOf(server)
            && (forall i :: 0 <= i < |splits| ==> KeyOf(splits[i]) in t2)
            && (forall i :: 0 <= i < |splits| && KeyOf(splits[i]) !in t && KeyOf(splits[i]) != KeyOf(server)
                            && (forall j :: 0 <= j < i ==> KeyOf(splits[j]) != KeyOf(splits[i])) ==>
                  t2[KeyOf(splits[i])] == EntryOf(splits[i]))
            && (forall k :: k in t && k != KeyOf(server) ==> k in t2 && t2[k] == t[k])
            && (forall k :: k in t2 ==> k in t || k == KeyOf(server) || k in Keys(splits))
  {
    hide KeyOf, EntryOf, Added, TableAfter, InstalledAfter, Lawful, AllBuilt, Keys, Overlay;
    var d, adds, f, fs := AsDelete(server), [server] + splits, fates[0], fates[1..];
    assert fates == [f] + fs && f in fates && forall x :: x in fs ==> x in fates;
    ConsStep(t, [], d, f, adds, fs);
    DeleteKey(server);
    var t1 := TableStep(t, d, f);
    assert t1 == t - {KeyOf(server)};
    var t2 := TableAfter(t1, adds, fs);
    AddsPresent(t1, adds, fs);
    FirstAddDecides(t1, adds, fs, 0);
    AddsOnly(t1, adds, fs);
    HeadKey(server, splits);
    forall i | 0 <= i < |splits| ensures KeyOf(splits[i]) in t2 {
      assert adds[i + 1] == splits[i];
    }
    forall i | 0 <= i < |splits| && KeyOf(splits[i]) !in t && KeyOf(splits[i]) != KeyOf(server)
               && (forall j :: 0 <= j < i ==> KeyOf(splits[j]) != KeyOf(splits[i]))
      ensures t2[KeyOf(splits[i])] == EntryOf(splits[i])
    {
      assert forall j :: 1 <= j < i + 1 ==> adds[j] == splits[j - 1];
      FirstAddDecides(t1, adds, fs, i + 1);
    }
  }

  lemma HeadKey(server: Route, splits: seq<Route>)
    ensures Keys([server] + splits) == {KeyOf(server)} + Keys(splits)
  {
    hide KeyOf;
    ConcatKeysAny([server], splits);
    KeysSnoc([server]);
    assert [server][..0] == [];
  }

  lemma ConcatKeysAny(a: seq<Route>, b: seq<Route>)
    ensures Keys(a + b) == Keys(a) + Keys(b)
  {
    hide KeyOf;
    var all := a + b;
    forall k | k in Keys(a) ensures k in Keys(all) {
      var i :| 0 <= i < |a| && k == KeyOf(a[i]);
      assert all[i] == a[i];
    }
    forall k | k in Keys(b) ensures k in Keys(all) {
      var i :| 0 <= i < |b| && k == KeyOf(b[i]);
      assert all[|a| + i] == b[i];
    }
  }

  /** ADDs change no entry and make none but those asked for. */
  lemma AddsOnly(t: Table, rs: seq<Route>, fs: seq<Fate>)
    requires Lawful(t, rs, fs) && AddOnly(rs)
    ensures |rs| == |fs|
    ensures var t2 := TableAfter(t, rs, fs);
            && (forall k :: k in t ==> k in t2 && t2[k] == t[k])
            && (forall k :: k in t2 ==> k in t || k in Keys(rs))
  {
    hide KeyOf, EntryOf, TableAfter, Lawful, Added, InstalledAfter, Overlay;
    AddsEffect(t, [], rs, fs);
    var a := Added(rs, fs);
    OverlayHolds(t, a);
    forall k | k in Keys(a) ensures k in Keys(rs) {
      var i :| 0 <= i < |a| && k == KeyOf(a[i]);
      var j :| 0 <= j < |rs| && rs[j] == a[i];
    }
  }

  /** Of several ADDs with one free key, none failing, the first decides the entry. */
  lemma {:induction false} FirstAddDecides(t: Table, rs: seq<Route>, fs: seq<Fate>, i: nat)
    requires Lawful(t, rs, fs) && AddOnly(rs) && NoFailure(fs) && i < |rs| && KeyOf(rs[i]) !in t
    requires forall j :: 0 <= j < i ==> KeyOf(rs[j]) != KeyOf(rs[i])
    ensures |rs| == |fs| && KeyOf(rs[i]) in TableAfter(t, rs, fs)
    ensures TableAfter(t, rs, fs)[KeyOf(rs[i])] == EntryOf(rs[i])
  {
    hide KeyOf, EntryOf, Lawful, TableAfter, Added, InstalledAfter, Keys;
    LawfulSize(t, rs, fs);
    var n := |rs| - 1;
    assert rs == rs[..n] + [rs[n]] && fs == fs[..n] + [fs[n]] && fs[n] in fs;
    SnocStep(t, [], rs[..n], fs[..n], rs[n], fs[n]);
    if i < n {
      assert rs[..n][i] == rs[i];
      FirstAddDecides(t, rs[..n], fs[..n], i);
    } else {
      AddsOnly(t, rs[..n], fs[..n]);
      KeyAbsent(rs[..n], KeyOf(rs[n]));
    }
  }

  lemma KeyAbsent(rs: seq<Route>, k: Key)
    requires forall j :: 0 <= j < |rs| ==> KeyOf(rs[j]) != k
    ensures k !in Keys(rs)
  {
  }

  /** After a batch of ADDs none of which failed, every route asked for is there. */
  lemma {:induction false} AddsPresent(t: Table, rs: seq<Route>, fs: seq<Fate>)
    requires Lawful(t, rs, fs) && AddOnly(rs) && NoFailure(fs)
    ensures |rs| == |fs| && forall i :: 0 <= i < |rs| ==> KeyOf(rs[i]) in TableAfter(t, rs, fs)
  {
    hide KeyOf, EntryOf;
    if rs != [] {
      var n := |rs| - 1;
      AddsPresent(t, rs[..n], fs[..n]);
      assert fs[n] in fs;
      forall i | 0 <= i < |rs| ensures KeyOf(rs[i]) in TableAfter(t, rs, fs) {
        if i < n { assert rs[..n][i] == rs[i]; }
      }
    }
  }

  // ----- what stays

  /** What was in the table is there unchanged, and what was listed and in the table is listed. */
  ghost predicate Kept(t: Table, inst: seq<Route>, t2: Table, inst2: seq<Route>) {
    && (forall k :: k in t ==> k in t2 && t2[k] == t[k])
    && (forall r :: r in inst && KeyOf(r) in t && r.mask != Some([]) ==> r in inst2)
  }

  lemma {:induction false} RemoveKeeps(inst: seq<Route>, x: Route, r: Route)
    requires x in inst && !SameRoute(x, r)
    ensures x in Remove(inst, r)
  {
    hide SameRoute;
    var n := |inst| - 1;
    if x in inst[..n] && !SameRoute(inst[n], r) {
      RemoveKeeps(inst[..n], x, r);
    } else {
      var i :| 0 <= i < |inst| && inst[i] == x;
      assert i < n ==> inst[..n][i] == x;
    }
  }

  lemma {:induction false} DeletesKeep(inst: seq<Route>, a: seq<Route>, fs: seq<Fate>, x: Route)
    requires |a| == |fs| && x in inst && forall i :: 0 <= i < |a| ==> !SameRoute(x, a[i])
    ensures x in InstalledAfter(inst, AsDeletes(a), fs)
    decreases |a|
  {
    hide SameRoute, Remove;
    if a != [] {
      var n := |a| - 1;
      assert AsDeletes(a)[..n] == AsDeletes(a[..n]);
      DeletesKeep(inst, a[..n], fs[..n], x);
      SameAsDelete(x, a[n]);
      RemoveKeeps(InstalledAfter(inst, AsDeletes(a[..n]), fs[..n]), x, AsDelete(a[n]));
    }
  }

  /** Every run of a batch of ADDs keeps what is there. */
  lemma AddRunKeeps(t: Table, inst: seq<Route>, rs: seq<Route>, run: BatchRun)
    requires AddOnly(rs) && Masked(rs) && Possible(t, rs, run)
    ensures Kept(t, inst, RunTable(t, rs, run), RunInstalled(t, inst, rs, run))
  {
    hide KeyOf, EntryOf, Added, TableAfter, InstalledAfter, Lawful, SameRoute, WellBuilt, Lists, Overlay;
    if !run.Untried? {
      var ts, fs := Tried(rs, run), run.fates;
      assert run.Success? ==> ts == rs;
      AddsEffect(t, inst, ts, fs);
      OverlayHolds(t, Added(ts, fs));
      if run.Failure? {
        AddBatchAtomic(t, inst, ts, fs, run.undo);
        LawfulSize(TableAfter(t, ts, fs), AsDeletes(Added(ts, fs)), run.undo);
        if !run.applied { RefusedKeeps(t, inst, Added(ts, fs), run.undo); }
      }
    }
  }

  lemma RefusedKeeps(t: Table, inst: seq<Route>, a: seq<Route>, undo: seq<Fate>)
    requires Fresh(t, a) && Masked(a) && |a| == |undo|
    ensures forall r :: r in inst && KeyOf(r) in t && r.mask != Some([]) ==>
              r in InstalledAfter(inst, AsDeletes(a), undo)
  {
    hide KeyOf, SameRoute, InstalledAfter;
    forall r | r in inst && KeyOf(r) in t && r.mask != Some([]) ensures r in InstalledAfter(inst, AsDeletes(a), undo) {
      forall i | 0 <= i < |a| ensures !SameRoute(r, a[i]) {
        if SameRoute(r, a[i]) { SameRouteSameKey(r, a[i]); }
      }
      DeletesKeep(inst, a, undo, r);
    }
  }

  /** After DELETEs none of which failed, none of the routes is there. */
  lemma {:induction false} DeletesAbsent(t: Table, a: seq<Route>, fs: seq<Fate>)
    requires Lawful(t, AsDeletes(a), fs) && NoFailure(fs)
    ensures |a| == |fs| && forall i :: 0 <= i < |a| ==> KeyOf(a[i]) !in TableAfter(t, AsDeletes(a), fs)
    decreases |a|
  {
    hide KeyOf, EntryOf, TableAfter, Lawful, Added, InstalledAfter;
    LawfulSize(t, AsDeletes(a), fs);
    if a != [] {
      var n := |a| - 1;
      assert AsDeletes(a) == AsDeletes(a[..n]) + [AsDelete(a[n])] && fs == fs[..n] + [fs[n]];
      SnocStep(t, [], AsDeletes(a[..n]), fs[..n], AsDelete(a[n]), fs[n]);
      DeletesAbsent(t, a[..n], fs[..n]);
      DeleteKey(a[n]);
      assert fs[n] in fs;
      forall i | 0 <= i < |a| ensures KeyOf(a[i]) !in TableAfter(t, AsDeletes(a), fs) {
        if i < n { assert a[..n][i] == a[i]; }
      }
    }
  }

  /** After a successful replacement the server's route is listed, whatever was listed before. */
  lemma ReplacedListed(t: Table, inst: seq<Route>, server: Route, splits: seq<Route>, fates: seq<Fate>)
    requires ServerRoute(server) && AddOnly(splits)
    requires Possible(t, Replacing(server, splits), Success(fates))
    ensures server in RunInstalled(t, inst, Replacing(server, splits), Success(fates))
  {
    hide KeyOf, EntryOf, Added, TableAfter, InstalledAfter, Lawful, Remove, WellBuilt;
    var d, adds, f, fs := AsDelete(server), [server] + splits, fates[0], fates[1..];
    assert fates == [f] + fs && f in fates && forall x :: x in fs ==> x in fates;
    ConsStep(t, inst, d, f, adds, fs);
    DeleteKey(server);
    var t1, inst1 := TableStep(t, d, f), InstalledStep(inst, d, f);
    var g, gs := fs[0], fs[1..];
    assert fs == [g] + gs && g in fs;
    ConsStep(t1, inst1, server, g, splits, gs);
    AddsEffect(TableStep(t1, server, g), InstalledStep(inst1, server, g), splits, gs);
  }
}
