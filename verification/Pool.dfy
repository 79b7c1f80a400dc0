/** Ownership of payload buffers. All sessions share one pool; the loops of each session take
    payloads from it, hand them on through the session's three queues and put them back. Each loop
    is a program counter and a local variable, and one statement of one loop is one step. Payloads
    are records in a store, referred to by handle; the bytes are the business of the frame loops. */
module Pool {
  import opened Bits
  import opened Wrappers
  import opened Frames

  const QUEUE_SIZE: nat := 64

  // ----- payloads and the pool

  /** Type, length and capacity of a payload. */
  datatype Slice = Slice(kind: byte, len: nat, cap: nat)
  {
    /** append(Data[:0], n bytes): a slice too small is replaced by one of capacity grown. */
    function Replaced(n: nat, grown: nat): Slice {
      Slice(kind, n, if n <= cap then cap else if grown < n then n else grown)
    }
  }

  /** What the pool promises. */
  const READY := Slice(DATA, BUFFER_SIZE, BUFFER_SIZE)

  /** Made for the pool, or by the timer of a session, which sends its two payloads again and again. */
  datatype Origin = Pooled | TlsTimer(session: nat) | DtlsTimer(session: nat)

  datatype Cell = Cell(slice: Slice, origin: Origin)
  {
    predicate Sound() {
      && slice.len <= slice.cap
      && match origin
         case Pooled => slice.kind == DATA || slice.kind == DPD_RESP
         case TlsTimer(_) => slice.kind == DPD_REQ && slice.cap == 8
         case DtlsTimer(_) => slice.kind == DPD_REQ && slice.cap == 1
    }
  }

  type Handle = nat

  /** Every payload ever made, and the handles in the pool, each as often as it was put there. */
  datatype Memory = Memory(store: seq<Cell>, pool: multiset<Handle>)
  {
    function At(h: Handle): Cell {
      if h < |store| then store[h] else Cell(READY, Pooled)
    }

    function Write(h: Handle, slice: Slice): Memory {
      if h < |store| then this.(store := store[h := store[h].(slice := slice)]) else this
    }

    /** A handle from the pool, or a new one; which, is up to the pool. */
    function Get(wish: Handle): (Memory, Handle) {
      if wish in pool then (this.(pool := pool - multiset{wish}), wish)
      else (this.(store := store + [Cell(READY, Pooled)]), |store|)
    }

    /** Resets a payload of pool capacity and adds it to the pool, whoever else may have it. */
    function Put(h: Handle): Memory {
      if At(h).slice.cap != BUFFER_SIZE then this
      else Write(h, READY).(pool := pool + multiset{h})
    }
  }

  /** The pool by itself. */
  class PayloadPool {
    var store: seq<Cell>
    var pool: multiset<Handle>

    function Value(): Memory reads this {
      Memory(store, pool)
    }

    constructor ()
      ensures Value() == Memory([], multiset{})
    {
      store, pool := [], multiset{};
    }

    method GetPayloadBuffer(wish: Handle) returns (h: Handle)
      modifies this
      ensures (Value(), h) == old(Value()).Get(wish)
    {
      h := wish;
      if wish in pool {
        pool := pool - multiset{wish};
      } else {
        h := |store|;
        store := store + [Cell(READY, Pooled)];
      }
    }

    method PutPayloadBuffer(h: Handle)
      requires h < |store|
      modifies this
      ensures Value() == old(Value()).Put(h)
    {
      var pl := store[h].slice;
      if pl.cap != BUFFER_SIZE {
        return;
      }
      pl := pl.(kind := DATA);
      pl := pl.(len := BUFFER_SIZE);
      store := store[h := store[h].(slice := pl)];
      pool := pool + multiset{h};
    }
  }

  // ----- queues and loops

  datatype Queue = PayloadIn | OutTls | OutDtls

  datatype Session = Session(payloadIn: seq<Handle>, outTls: seq<Handle>, outDtls: seq<Handle>,
                             tlsDpd: Handle, dtlsDpd: Handle)
  {
    function Of(q: Queue): seq<Handle> {
      match q case PayloadIn => payloadIn case OutTls => outTls case OutDtls => outDtls
    }

    function With(q: Queue, hs: seq<Handle>): Session {
      match q
      case PayloadIn => this.(payloadIn := hs)
      case OutTls => this.(outTls := hs)
      case OutDtls => this.(outDtls := hs)
    }
  }

  datatype Role = TlsReceiver | DtlsReceiver | TlsSender | DtlsSender | TunReader | TunWriter
  {
    function Channel(): Channel {
      if TlsReceiver? || TlsSender? then Tls else Dtls
    }

    /** The queue a loop sends its channel's frames from, or answers into. */
    function Out(): Queue {
      if Channel().Tls? then OutTls else OutDtls
    }

    /** The queue a loop reads, for those that do. */
    function Source(): Option<Queue> {
      match this
      case TlsSender => Some(OutTls)
      case DtlsSender => Some(OutDtls)
      case TunWriter => Some(PayloadIn)
      case _ => None
    }
  }

  /** The statement a loop is at. */
  datatype Point =
    | Getting | Reading | Passing | Answering | Choosing | ToTls | ToDtls
    | Popping | Framing | Writing | Putting
    | Exited

  /** A goroutine of a session; pl is its local variable, which keeps its value when the payload is no
      longer the goroutine's business. */
  datatype Worker = Worker(role: Role, session: nat, pc: Point, pl: Handle)
  {
    /** From its get or pop to its push, put or exit. */
    predicate Holds() {
      !pc.Getting? && !pc.Popping? && !pc.Exited?
    }
  }

  /** What the outside decides in a step: whether it fails or a select takes its closing branch, what
      the pool gives, what a read brings, how append grows, whether DTLS is up. */
  datatype Outside = Outside(fails: bool, wish: Handle, kind: byte, n: nat, grown: nat, dtlsUp: bool)

  datatype State = State(mem: Memory, sessions: seq<Session>, workers: seq<Worker>, offset: nat)
  {
    function Goto(w: nat, pc: Point): State
      requires w < |workers|
    {
      this.(workers := workers[w := workers[w].(pc := pc)])
    }

    /** Assigns to pl.Type and pl.Data. */
    function Write(w: nat, slice: Slice): State
      requires w < |workers|
    {
      this.(mem := mem.Write(workers[w].pl, slice))
    }

    function Get(w: nat, wish: Handle): State
      requires w < |workers|
    {
      var (m, h) := mem.Get(wish);
      this.(mem := m, workers := workers[w := workers[w].(pc := Reading, pl := h)])
    }

    function Put(w: nat): State
      requires w < |workers|
    {
      this.(mem := mem.Put(workers[w].pl)).Goto(w, Popping)
    }

    /** Adds a handle to a queue, whoever else may have it. */
    function Enqueue(g: nat, q: Queue, h: Handle): State {
      if g < |sessions| then this.(sessions := sessions[g := sessions[g].With(q, sessions[g].Of(q) + [h])]) else this
    }

    predicate Full(g: nat, q: Queue) {
      g < |sessions| && |sessions[g].Of(q)| >= QUEUE_SIZE
    }

    /** Waits while the queue is full. */
    function Push(w: nat, q: Queue): State
      requires w < |workers|
    {
      var k := workers[w];
      if Full(k.session, q) then this else Enqueue(k.session, q, k.pl).Goto(w, Getting)
    }

    /** Waits while the queue is empty. */
    function Pop(w: nat, q: Queue, next: Point): State
      requires w < |workers|
    {
      var k := workers[w];
      if k.session >= |sessions| || sessions[k.session].Of(q) == [] then this
      else
        var hs := sessions[k.session].Of(q);
        this.(sessions := sessions[k.session := sessions[k.session].With(q, hs[1..])],
              workers := workers[w := k.(pc := next, pl := hs[0])])
    }
  }

  /** tlsChannel and runDtlsEstablished. Data that does not fit its buffer is not read. */
  function ReceiverStep(s: State, w: nat, o: Outside): State
    requires w < |s.workers|
  {
    var k := s.workers[w];
    var pl := s.mem.At(k.pl).slice;
    match k.pc
    case Getting => s.Get(w, o.wish)
    case Reading =>
      if o.fails || (k.role.DtlsReceiver? && o.kind == DISCONNECT) then s.Goto(w, Exited)
      else if o.kind == DATA && k.role.Channel().Overhead() + o.n > pl.len then s
      else if o.kind == DATA || o.kind == COMPRESSED then s.Goto(w, Passing).Write(w, pl.Replaced(o.n, o.grown))
      else if o.kind == DPD_REQ then s.Goto(w, Answering).Write(w, pl.(kind := DPD_RESP))
      else s.Goto(w, Getting)
    case Passing => if o.fails then s.Goto(w, Exited) else s.Push(w, PayloadIn)
    case Answering => if o.fails then s.Goto(w, Exited) else s.Push(w, k.role.Out())
    case _ => s
  }

  /** payloadOutTLSToServer and payloadOutDTLSToServer: n is the length after compression. */
  function SenderStep(s: State, w: nat, o: Outside): State
    requires w < |s.workers|
  {
    var k := s.workers[w];
    var pl, header := s.mem.At(k.pl).slice, k.role.Channel().Overhead();
    match k.pc
    case Popping => if o.fails then s.Goto(w, Exited) else s.Pop(w, k.role.Out(), Framing)
    case Framing =>
      if pl.kind != DATA then s.Goto(w, Writing).Write(w, pl.Replaced(header, o.grown))
      else if o.n > pl.len || header + o.n > pl.cap then s
      else s.Goto(w, Writing).Write(w, pl.(len := header + o.n))
    case Writing => s.Goto(w, if o.fails then Exited else Putting)
    case Putting => s.Put(w)
    case _ => s
  }

  /** tunToPayloadOut. */
  function TunReaderStep(s: State, w: nat, o: Outside): State
    requires w < |s.workers|
  {
    var k := s.workers[w];
    var pl := s.mem.At(k.pl).slice;
    match k.pc
    case Getting => s.Get(w, o.wish)
    case Reading =>
      if o.fails then s.Goto(w, Exited)
      else if s.offset + o.n > pl.len || s.offset + o.n > pl.cap then s
      else s.Goto(w, Choosing).Write(w, Slice(pl.kind, o.n, pl.cap - s.offset))
    case Choosing => s.Goto(w, if o.dtlsUp then ToDtls else ToTls)
    case ToDtls => if o.fails then s.Goto(w, Getting) else s.Push(w, OutDtls)
    case ToTls => if o.fails then s.Goto(w, Exited) else s.Push(w, OutTls)
    case _ => s
  }

  /** payloadInToTun. */
  function TunWriterStep(s: State, w: nat, o: Outside): State
    requires w < |s.workers|
  {
    match s.workers[w].pc
    case Popping => if o.fails then s.Goto(w, Exited) else s.Pop(w, PayloadIn, Writing)
    case Writing => s.Goto(w, if o.fails then Exited else Putting)
    case Putting => s.Put(w)
    case _ => s
  }

  /** Sessions come and never go; loops of any role may be started in any number, so that those of a
      lost DTLS channel or of an old session may linger; timers tick; the pool may forget. */
  datatype Step =
    | NewSession
    | Start(role: Role, session: nat)
    | Tick(session: nat, dtls: bool)
    | Forget(h: Handle)
    | Advance(worker: nat, outside: Outside)

  function Next(s: State, step: Step): State {
    match step
    case NewSession =>
      var g, n := |s.sessions|, |s.mem.store|;
      var timer := [Cell(Slice(DPD_REQ, 0, 8), TlsTimer(g)), Cell(Slice(DPD_REQ, 0, 1), DtlsTimer(g))];
      s.(mem := s.mem.(store := s.mem.store + timer), sessions := s.sessions + [Session([], [], [], n, n + 1)])
    case Start(role, g) =>
      if g >= |s.sessions| then s
      else s.(workers := s.workers + [Worker(role, g, if role.Source().Some? then Popping else Getting, 0)])
    case Tick(g, dtls) =>
      var q := if dtls then OutDtls else OutTls;
      if g >= |s.sessions| || s.Full(g, q) then s
      else s.Enqueue(g, q, if dtls then s.sessions[g].dtlsDpd else s.sessions[g].tlsDpd)
    case Forget(h) => s.(mem := s.mem.(pool := s.mem.pool - multiset{h}))
    case Advance(w, o) =>
      if w >= |s.workers| then s
      else
        match s.workers[w].role
        case TlsReceiver => ReceiverStep(s, w, o)
        case DtlsReceiver => ReceiverStep(s, w, o)
        case TlsSender => SenderStep(s, w, o)
        case DtlsSender => SenderStep(s, w, o)
        case TunReader => TunReaderStep(s, w, o)
        case TunWriter => TunWriterStep(s, w, o)
  }

  function After(s: State, run: seq<Step>): State {
    if run == [] then s else Next(After(s, run[..|run| - 1]), run[|run| - 1])
  }

  function Initial(offset: nat): State {
    State(Memory([], multiset{}), [], [], offset)
  }

  // ----- where handles are

  function Sum<T>(xs: seq<T>, f: T -> multiset<Handle>): multiset<Handle> {
    if xs == [] then multiset{} else Sum(xs[..|xs| - 1], f) + f(xs[|xs| - 1])
  }

  function HeldBy(k: Worker): multiset<Handle> {
    if k.Holds() then multiset{k.pl} else multiset{}
  }

  function QueuedIn(x: Session): multiset<Handle> {
    multiset(x.payloadIn) + multiset(x.outTls) + multiset(x.outDtls)
  }

  /** Every handle as often as it is in the pool, in a queue or in a loop's hands. */
  function Everywhere(s: State): multiset<Handle> {
    s.mem.pool + Sum(s.sessions, QueuedIn) + Sum(s.workers, HeldBy)
  }

  lemma {:induction false} SumUpdate<T>(xs: seq<T>, f: T -> multiset<Handle>, i: nat, x: T)
    requires i < |xs|
    ensures f(xs[i]) <= Sum(xs, f)
    ensures Sum(xs[i := x], f) == Sum(xs, f) - f(xs[i]) + f(x)
  {
    var n := |xs| - 1;
    if i == n {
      assert xs[i := x][..n] == xs[..n];
    } else {
      SumUpdate(xs[..n], f, i, x);
      assert xs[i := x][..n] == xs[..n][i := x];
      assert xs[..n][i] == xs[i];
    }
  }

  lemma {:induction false} SumTwo<T>(xs: seq<T>, f: T -> multiset<Handle>, i: nat, j: nat)
    requires i < j < |xs|
    ensures f(xs[i]) + f(xs[j]) <= Sum(xs, f)
  {
    var n := |xs| - 1;
    if j == n {
      SumUpdate(xs[..n], f, i, xs[i]);
      assert xs[..n][i] == xs[i];
    } else {
      SumTwo(xs[..n], f, i, j);
      assert xs[..n][i] == xs[i] && xs[..n][j] == xs[j];
    }
  }

  lemma SumSnoc<T>(xs: seq<T>, f: T -> multiset<Handle>, x: T)
    ensures Sum(xs + [x], f) == Sum(xs, f) + f(x)
  {
    assert (xs + [x])[..|xs|] == xs;
  }

  // ----- the invariant

  /** May a payload of this origin be in this queue of session g? */
  predicate Belongs(o: Origin, g: nat, q: Queue) {
    match o
    case Pooled => true
    case TlsTimer(t) => t == g && q.OutTls?
    case DtlsTimer(t) => t == g && q.OutDtls?
  }

  predicate QueuedRight(store: seq<Cell>, h: Handle, g: nat, q: Queue) {
    && h < |store| && Belongs(store[h].origin, g, q)
    && (q.PayloadIn? ==> store[h].slice.kind == DATA)
  }

  predicate SessionRight(store: seq<Cell>, x: Session, g: nat) {
    && x.tlsDpd < |store| && store[x.tlsDpd].origin == TlsTimer(g)
    && x.dtlsDpd < |store| && store[x.dtlsDpd].origin == DtlsTimer(g)
    && forall q: Queue, h: Handle :: h in x.Of(q) ==> QueuedRight(store, h, g, q)
  }

  /** A loop that reads a queue holds what may be in it; the others hold payloads of the pool, which
      are ready until something is read into them. */
  predicate HeldRight(store: seq<Cell>, k: Worker) {
    && k.pl < |store|
    && (match k.role.Source()
        case Some(q) => Belongs(store[k.pl].origin, k.session, q)
        case None => store[k.pl].origin.Pooled?)
    && (k.pc.Reading? ==> store[k.pl].slice == READY)
    && (k.pc.Passing? || k.role.TunReader? || k.role.TunWriter? ==> store[k.pl].slice.kind == DATA)
  }

  predicate PooledRight(store: seq<Cell>, h: Handle) {
    h < |store| && store[h] == Cell(READY, Pooled)
  }

  ghost predicate InPlace(s: State) {
    && (forall h :: 0 <= h < |s.mem.store| ==> s.mem.store[h].Sound())
    && (forall h :: h in s.mem.pool ==> PooledRight(s.mem.store, h))
    && (forall g :: 0 <= g < |s.sessions| ==> SessionRight(s.mem.store, s.sessions[g], g))
    && (forall w :: 0 <= w < |s.workers| && s.workers[w].Holds() ==> HeldRight(s.mem.store, s.workers[w]))
    && (forall w :: 0 <= w < |s.workers| ==> s.workers[w].session < |s.sessions|)
  }

  /** A payload made for the pool is in one place at most. */
  ghost predicate Single(store: seq<Cell>, all: multiset<Handle>) {
    forall h :: h in all ==> h < |store| && (store[h].origin.Pooled? ==> all[h] == 1)
  }

  ghost predicate Valid(s: State) {
    InPlace(s) && Single(s.mem.store, Everywhere(s))
  }

  /** What a loop holds of the pool, nobody else has. */
  lemma Exclusive(s: State, w: nat)
    requires Single(s.mem.store, Everywhere(s)) && w < |s.workers| && s.workers[w].Holds()
    requires s.workers[w].pl < |s.mem.store| && s.mem.store[s.workers[w].pl].origin.Pooled?
    ensures var h := s.workers[w].pl;
            && h !in s.mem.pool
            && (forall g, q: Queue :: 0 <= g < |s.sessions| ==> h !in s.sessions[g].Of(q))
            && (forall v :: 0 <= v < |s.workers| && v != w && s.workers[v].Holds() ==> s.workers[v].pl != h)
  {
    hide Sum;
    var k := s.workers[w];
    var h := k.pl;
    SumUpdate(s.workers, HeldBy, w, k);
    assert h in HeldBy(k);
    assert Everywhere(s)[h] == 1;
    forall g, q: Queue | 0 <= g < |s.sessions| ensures h !in s.sessions[g].Of(q) {
      SumUpdate(s.sessions, QueuedIn, g, s.sessions[g]);
    }
    forall v | 0 <= v < |s.workers| && v != w && s.workers[v].Holds() ensures s.workers[v].pl != h {
      if s.workers[v].pl == h {
        if v < w { SumTwo(s.workers, HeldBy, v, w); } else { SumTwo(s.workers, HeldBy, w, v); }
      }
    }
  }

  // ----- statements keep it

  /** A loop has a new value in hand, and lets go of what it held. */
  lemma HandsChange(s: State, w: nat, k: Worker)
    requires w < |s.workers|
    ensures HeldBy(s.workers[w]) <= Everywhere(s)
    ensures Everywhere(s.(workers := s.workers[w := k])) == Everywhere(s) - HeldBy(s.workers[w]) + HeldBy(k)
  {
    hide Sum, HeldBy;
    SumUpdate(s.workers, HeldBy, w, k);
  }

  lemma SingleLess(store: seq<Cell>, all: multiset<Handle>, less: multiset<Handle>)
    requires Single(store, all) && less <= all
    ensures Single(store, less)
  {
    forall h | h in less ensures h < |store| && (store[h].origin.Pooled? ==> less[h] == 1) {
      assert h in all && less[h] <= all[h];
    }
  }

  /** A loop goes on with what it holds, or lets go of it. */
  lemma GotoKeeps(s: State, w: nat, pc: Point)
    requires Valid(s) && w < |s.workers|
    requires var k := s.workers[w].(pc := pc); k.Holds() ==> s.workers[w].Holds() && HeldRight(s.mem.store, k)
    ensures Valid(s.Goto(w, pc))
  {
    hide Everywhere, HeldRight, SessionRight, PooledRight, Single;
    HandsChange(s, w, s.workers[w].(pc := pc));
    SingleLess(s.mem.store, Everywhere(s), Everywhere(s.Goto(w, pc)));
  }

  /** A loop changes what it holds. */
  lemma WriteKeeps(s: State, w: nat, slice: Slice)
    requires Valid(s) && w < |s.workers| && s.workers[w].Holds()
    requires var k := s.workers[w];
             && s.mem.At(k.pl).(slice := slice).Sound()
             && HeldRight(s.mem.Write(k.pl, slice).store, k)
    ensures Valid(s.Write(w, slice))
  {
    hide Sum;
    var k := s.workers[w];
    if s.mem.At(k.pl).origin.Pooled? { Exclusive(s, w); }
  }

  /** More payloads do not disturb the others. */
  lemma Grown(store: seq<Cell>, more: seq<Cell>)
    ensures forall h :: PooledRight(store, h) ==> PooledRight(store + more, h)
    ensures forall x, g :: SessionRight(store, x, g) ==> SessionRight(store + more, x, g)
    ensures forall k :: HeldRight(store, k) ==> HeldRight(store + more, k)
    ensures forall all :: Single(store, all) ==> Single(store + more, all)
  {
  }

  lemma GetCounts(s: State, w: nat, wish: Handle)
    requires w < |s.workers| && !s.workers[w].Holds()
    ensures Everywhere(s.Get(w, wish)) ==
            Everywhere(s) + if wish in s.mem.pool then multiset{} else multiset{|s.mem.store|}
  {
    hide Sum;
    var t := s.Get(w, wish);
    SumUpdate(s.workers, HeldBy, w, t.workers[w]);
  }

  lemma GetKeeps(s: State, w: nat, wish: Handle)
    requires Valid(s) && w < |s.workers| && s.workers[w].pc.Getting? && s.workers[w].role.Source().None?
    ensures Valid(s.Get(w, wish))
  {
    hide SessionRight, Everywhere;
    GetCounts(s, w, wish);
    if wish in s.mem.pool {
      assert PooledRight(s.mem.store, wish);
    } else {
      assert |s.mem.store| !in Everywhere(s);
      Grown(s.mem.store, [Cell(READY, Pooled)]);
    }
  }

  /** A loop's handle goes from its hands to the pool. */
  lemma PooledKeeps(s: State, w: nat)
    requires Valid(s) && w < |s.workers| && s.workers[w].Holds() && PooledRight(s.mem.store, s.workers[w].pl)
    ensures Valid(s.(mem := s.mem.(pool := s.mem.pool + multiset{s.workers[w].pl})).Goto(w, Popping))
  {
    hide Sum, SessionRight, HeldRight;
    var k := s.workers[w];
    SumUpdate(s.workers, HeldBy, w, k.(pc := Popping));
    var t := s.(mem := s.mem.(pool := s.mem.pool + multiset{s.workers[w].pl})).Goto(w, Popping);
    assert Everywhere(t) == Everywhere(s);
  }

  lemma PutKeeps(s: State, w: nat)
    requires Valid(s) && w < |s.workers| && s.workers[w].pc.Putting?
    ensures Valid(s.Put(w))
  {
    hide Sum, SessionRight, Everywhere;
    var k := s.workers[w];
    assert HeldRight(s.mem.store, k);
    if s.mem.At(k.pl).slice.cap != BUFFER_SIZE {
      GotoKeeps(s, w, Popping);
    } else {
      assert s.mem.store[k.pl].Sound();
      WriteKeeps(s, w, READY);
      PooledKeeps(s.Write(w, READY), w);
    }
  }

  lemma QueueLonger(x: Session, q: Queue, h: Handle)
    ensures QueuedIn(x.With(q, x.Of(q) + [h])) == QueuedIn(x) + multiset{h}
    ensures forall r: Queue :: x.With(q, x.Of(q) + [h]).Of(r) == if r == q then x.Of(q) + [h] else x.Of(r)
  {
  }

  lemma QueueShorter(x: Session, q: Queue)
    requires x.Of(q) != []
    ensures QueuedIn(x.With(q, x.Of(q)[1..])) + multiset{x.Of(q)[0]} == QueuedIn(x)
    ensures forall r: Queue :: x.With(q, x.Of(q)[1..]).Of(r) == if r == q then x.Of(q)[1..] else x.Of(r)
  {
    var hs := x.Of(q);
    assert hs == [hs[0]] + hs[1..];
  }

  /** One more handle in a queue. */
  lemma EnqueueCounts(s: State, g: nat, q: Queue, h: Handle)
    requires g < |s.sessions|
    ensures Everywhere(s.Enqueue(g, q, h)) == Everywhere(s) + multiset{h}
  {
    hide Sum, QueuedIn;
    var x := s.sessions[g];
    QueueLonger(x, q, h);
    SumUpdate(s.sessions, QueuedIn, g, x.With(q, x.Of(q) + [h]));
  }

  lemma EnqueuePlaces(store: seq<Cell>, x: Session, g: nat, q: Queue, h: Handle)
    requires SessionRight(store, x, g) && QueuedRight(store, h, g, q)
    ensures SessionRight(store, x.With(q, x.Of(q) + [h]), g)
  {
    hide QueuedRight;
    QueueLonger(x, q, h);
  }

  lemma PushKeeps(s: State, w: nat, q: Queue)
    requires Valid(s) && w < |s.workers| && s.workers[w].Holds() && s.workers[w].role.Source().None?
    requires q.PayloadIn? ==> s.mem.At(s.workers[w].pl).slice.kind == DATA
    ensures Valid(s.Push(w, q))
  {
    hide SessionRight, Everywhere;
    var k := s.workers[w];
    assert HeldRight(s.mem.store, k);
    EnqueuePlaces(s.mem.store, s.sessions[k.session], k.session, q, k.pl);
    EnqueueCounts(s, k.session, q, k.pl);
    HandsChange(s.Enqueue(k.session, q, k.pl), w, k.(pc := Getting));
  }

  /** One handle less in a queue. */
  lemma DequeueCounts(s: State, g: nat, q: Queue)
    requires g < |s.sessions| && s.sessions[g].Of(q) != []
    ensures var x := s.sessions[g];
            var t := s.(sessions := s.sessions[g := x.With(q, x.Of(q)[1..])]);
            Everywhere(t) + multiset{x.Of(q)[0]} == Everywhere(s)
  {
    hide Sum, QueuedIn;
    var x := s.sessions[g];
    QueueShorter(x, q);
    SumUpdate(s.sessions, QueuedIn, g, x.With(q, x.Of(q)[1..]));
  }

  /** The first handle of a queue goes to a loop's hands. */
  lemma PopCounts(s: State, w: nat, q: Queue, next: Point)
    requires w < |s.workers| && !s.workers[w].Holds()
    requires next.Framing? || next.Writing?
    ensures Everywhere(s.Pop(w, q, next)) == Everywhere(s)
  {
    hide Everywhere;
    var k := s.workers[w];
    if k.session < |s.sessions| && s.sessions[k.session].Of(q) != [] {
      var x := s.sessions[k.session];
      DequeueCounts(s, k.session, q);
      HandsChange(s.(sessions := s.sessions[k.session := x.With(q, x.Of(q)[1..])]), w,
                  k.(pc := next, pl := x.Of(q)[0]));
    }
  }

  lemma DequeuePlaces(store: seq<Cell>, x: Session, g: nat, q: Queue)
    requires SessionRight(store, x, g) && x.Of(q) != []
    ensures SessionRight(store, x.With(q, x.Of(q)[1..]), g) && QueuedRight(store, x.Of(q)[0], g, q)
  {
    hide QueuedRight;
    QueueShorter(x, q);
  }

  lemma PopKeeps(s: State, w: nat, q: Queue, next: Point)
    requires Valid(s) && w < |s.workers| && s.workers[w].pc.Popping? && s.workers[w].role.Source() == Some(q)
    requires next.Framing? || next.Writing?
    ensures Valid(s.Pop(w, q, next))
  {
    hide SessionRight, Everywhere;
    PopCounts(s, w, q, next);
    var k := s.workers[w];
    var x := s.sessions[k.session];
    if x.Of(q) != [] { DequeuePlaces(s.mem.store, x, k.session, q); }
  }

  lemma Held(s: State, w: nat)
    requires Valid(s) && w < |s.workers| && s.workers[w].Holds()
    ensures HeldRight(s.mem.store, s.workers[w])
  {
  }

  /** A receiver has read a frame: data to pass on, or a request to answer. */
  lemma ReadKeeps(s: State, w: nat, o: Outside)
    requires Valid(s) && w < |s.workers| && s.workers[w].pc.Reading? && s.workers[w].role.Source().None?
    requires !s.workers[w].role.TunReader?
    ensures Valid(s.Goto(w, Passing).Write(w, READY.Replaced(o.n, o.grown)))
    ensures Valid(s.Goto(w, Answering).Write(w, READY.(kind := DPD_RESP)))
    ensures s.workers[w].pl < |s.mem.store| && s.mem.At(s.workers[w].pl).slice == READY
  {
    hide Everywhere, SessionRight, PooledRight, Single;
    assert HeldRight(s.mem.store, s.workers[w]);
    GotoKeeps(s, w, Passing);
    WriteKeeps(s.Goto(w, Passing), w, READY.Replaced(o.n, o.grown));
    GotoKeeps(s, w, Answering);
    WriteKeeps(s.Goto(w, Answering), w, READY.(kind := DPD_RESP));
  }

  lemma ReceiverKeeps(s: State, w: nat, o: Outside)
    requires Valid(s) && w < |s.workers| && (s.workers[w].role.TlsReceiver? || s.workers[w].role.DtlsReceiver?)
    ensures Valid(ReceiverStep(s, w, o))
  {
    hide Everywhere, SessionRight, PooledRight, Single, InPlace;
    var k := s.workers[w];
    if k.Holds() { Held(s, w); }
    match k.pc
    case Getting => GetKeeps(s, w, o.wish);
    case Reading =>
      GotoKeeps(s, w, Exited);
      GotoKeeps(s, w, Getting);
      ReadKeeps(s, w, o);
    case Passing =>
      GotoKeeps(s, w, Exited);
      PushKeeps(s, w, PayloadIn);
    case Answering =>
      GotoKeeps(s, w, Exited);
      PushKeeps(s, w, k.role.Out());
    case _ =>
  }

  lemma SenderKeeps(s: State, w: nat, o: Outside)
    requires Valid(s) && w < |s.workers| && (s.workers[w].role.TlsSender? || s.workers[w].role.DtlsSender?)
    ensures Valid(SenderStep(s, w, o))
  {
    hide Everywhere, SessionRight, PooledRight;
    var k := s.workers[w];
    match k.pc
    case Popping =>
      GotoKeeps(s, w, Exited);
      PopKeeps(s, w, k.role.Out(), Framing);
    case Framing =>
      assert HeldRight(s.mem.store, k) && s.mem.store[k.pl].Sound();
      GotoKeeps(s, w, Writing);
      var pl, header := s.mem.At(k.pl).slice, k.role.Channel().Overhead();
      if pl.kind != DATA {
        WriteKeeps(s.Goto(w, Writing), w, pl.Replaced(header, o.grown));
      } else if header + o.n <= pl.cap {
        WriteKeeps(s.Goto(w, Writing), w, pl.(len := header + o.n));
      }
    case Writing =>
      assert HeldRight(s.mem.store, k);
      GotoKeeps(s, w, if o.fails then Exited else Putting);
    case Putting => PutKeeps(s, w);
    case _ =>
  }

  lemma TunReaderKeeps(s: State, w: nat, o: Outside)
    requires Valid(s) && w < |s.workers| && s.workers[w].role.TunReader?
    ensures Valid(TunReaderStep(s, w, o))
  {
    hide Everywhere, SessionRight;
    var k := s.workers[w];
    if k.Holds() { assert HeldRight(s.mem.store, k); }
    match k.pc
    case Getting => GetKeeps(s, w, o.wish);
    case Reading =>
      GotoKeeps(s, w, Exited);
      GotoKeeps(s, w, Choosing);
      if s.offset + o.n <= BUFFER_SIZE {
        WriteKeeps(s.Goto(w, Choosing), w, Slice(DATA, o.n, BUFFER_SIZE - s.offset));
      }
    case Choosing => GotoKeeps(s, w, if o.dtlsUp then ToDtls else ToTls);
    case ToDtls =>
      GotoKeeps(s, w, Getting);
      PushKeeps(s, w, OutDtls);
    case ToTls =>
      GotoKeeps(s, w, Exited);
      PushKeeps(s, w, OutTls);
    case _ =>
  }

  lemma TunWriterKeeps(s: State, w: nat, o: Outside)
    requires Valid(s) && w < |s.workers| && s.workers[w].role.TunWriter?
    ensures Valid(TunWriterStep(s, w, o))
  {
    hide Everywhere, SessionRight;
    var k := s.workers[w];
    match k.pc
    case Popping =>
      GotoKeeps(s, w, Exited);
      PopKeeps(s, w, PayloadIn, Writing);
    case Writing =>
      assert HeldRight(s.mem.store, k);
      GotoKeeps(s, w, if o.fails then Exited else Putting);
    case Putting => PutKeeps(s, w);
    case _ =>
  }

  lemma TimerRight(store: seq<Cell>, x: Session, g: nat)
    requires x.tlsDpd < |store| && store[x.tlsDpd].origin == TlsTimer(g)
    requires x.dtlsDpd < |store| && store[x.dtlsDpd].origin == DtlsTimer(g)
    requires x.payloadIn == [] && x.outTls == [] && x.outDtls == []
    ensures SessionRight(store, x, g)
  {
  }

  lemma NewSessionKeeps(s: State)
    requires Valid(s)
    ensures Valid(Next(s, NewSession))
  {
    hide Sum, HeldBy, HeldRight, SessionRight, PooledRight, Single;
    var t, g := Next(s, NewSession), |s.sessions|;
    var timer := t.mem.store[|s.mem.store|..];
    assert t.mem.store == s.mem.store + timer;
    Grown(s.mem.store, timer);
    SumSnoc(s.sessions, QueuedIn, t.sessions[g]);
    assert Everywhere(t) == Everywhere(s);
    TimerRight(t.mem.store, t.sessions[g], g);
  }

  lemma StartKeeps(s: State, role: Role, g: nat)
    requires Valid(s)
    ensures Valid(Next(s, Start(role, g)))
  {
    hide Sum, HeldRight, SessionRight;
    var t := Next(s, Start(role, g));
    if g < |s.sessions| {
      SumSnoc(s.workers, HeldBy, t.workers[|s.workers|]);
      assert Everywhere(t) == Everywhere(s);
    }
  }

  lemma TickKeeps(s: State, g: nat, dtls: bool)
    requires Valid(s)
    ensures Valid(Next(s, Tick(g, dtls)))
  {
    hide Everywhere, HeldRight;
    if g < |s.sessions| {
      var q, x := if dtls then OutDtls else OutTls, s.sessions[g];
      var h := if dtls then x.dtlsDpd else x.tlsDpd;
      EnqueuePlaces(s.mem.store, x, g, q, h);
      EnqueueCounts(s, g, q, h);
    }
  }

  lemma ForgetKeeps(s: State, h: Handle)
    requires Valid(s)
    ensures Valid(Next(s, Forget(h)))
  {
    hide Sum, HeldRight, SessionRight, PooledRight, Single;
    SingleLess(s.mem.store, Everywhere(s), Everywhere(Next(s, Forget(h))));
  }

  lemma StepKeeps(s: State, step: Step)
    requires Valid(s)
    ensures Valid(Next(s, step))
  {
    hide Valid, ReceiverStep, SenderStep, TunReaderStep, TunWriterStep;
    match step
    case NewSession => NewSessionKeeps(s);
    case Start(role, g) => StartKeeps(s, role, g);
    case Tick(g, dtls) => TickKeeps(s, g, dtls);
    case Forget(h) => ForgetKeeps(s, h);
    case Advance(w, o) =>
      if w < |s.workers| {
        match s.workers[w].role
        case TlsReceiver => ReceiverKeeps(s, w, o);
        case DtlsReceiver => ReceiverKeeps(s, w, o);
        case TlsSender => SenderKeeps(s, w, o);
        case DtlsSender => SenderKeeps(s, w, o);
        case TunReader => TunReaderKeeps(s, w, o);
        case TunWriter => TunWriterKeeps(s, w, o);
      }
  }

  lemma {:induction false} RunKeeps(s: State, run: seq<Step>)
    requires Valid(s)
    ensures Valid(After(s, run))
  {
    hide Valid, Next;
    if run != [] {
      RunKeeps(s, run[..|run| - 1]);
      StepKeeps(After(s, run[..|run| - 1]), run[|run| - 1]);
    }
  }

  lemma InitialValid(offset: nat)
    ensures Valid(Initial(offset))
  {
  }

  // ----- what it means

  /** What is in the pool is in no queue and no hands. */
  lemma PoolExclusive(s: State, h: Handle)
    requires Valid(s) && h in s.mem.pool
    ensures PooledRight(s.mem.store, h) && s.mem.pool[h] == 1
    ensures forall g, q: Queue :: 0 <= g < |s.sessions| ==> h !in s.sessions[g].Of(q)
    ensures forall w :: 0 <= w < |s.workers| && s.workers[w].Holds() ==> s.workers[w].pl != h
  {
    hide Sum, SessionRight, HeldRight;
    assert Everywhere(s)[h] == 1;
    forall g, q: Queue | 0 <= g < |s.sessions| ensures h !in s.sessions[g].Of(q) {
      SumUpdate(s.sessions, QueuedIn, g, s.sessions[g]);
    }
    forall w | 0 <= w < |s.workers| && s.workers[w].Holds() ensures s.workers[w].pl != h {
      SumUpdate(s.workers, HeldBy, w, s.workers[w]);
    }
  }

  /** In every run, each payload in the pool is ready, made for the pool, there once, in no queue and in
      no loop's hands; and every payload made for the pool is in one place at most. */
  lemma PoolOwnership(offset: nat, run: seq<Step>, h: Handle)
    ensures var s := After(Initial(offset), run);
            && (h in s.mem.pool ==>
                  && s.mem.At(h) == Cell(Slice(0, 2048, 2048), Pooled) && s.mem.pool[h] == 1
                  && (forall g, q: Queue :: 0 <= g < |s.sessions| ==> h !in s.sessions[g].Of(q))
                  && (forall w :: 0 <= w < |s.workers| && s.workers[w].Holds() ==> s.workers[w].pl != h))
            && (h in Everywhere(s) ==> h < |s.mem.store|)
            && (s.mem.At(h).origin.Pooled? ==> Everywhere(s)[h] <= 1)
  {
    hide Everywhere, InPlace, Initial, Next;
    InitialValid(offset);
    RunKeeps(Initial(offset), run);
    var s := After(Initial(offset), run);
    if h in s.mem.pool { PoolExclusive(s, h); }
  }

  /** In every run, what a loop holds is its own: a read fills a ready buffer, a put or a push hands over
      a payload that is nowhere else. The exception is a timer's payload, which only senders of its own
      channel and session hold, and which a put never takes into the pool. */
  lemma HandsOwnership(offset: nat, run: seq<Step>, w: nat)
    ensures var s := After(Initial(offset), run);
            w < |s.workers| && s.workers[w].Holds() ==>
              var k := s.workers[w];
              && k.pl < |s.mem.store| && k.pl !in s.mem.pool
              && (k.pc.Reading? ==> s.mem.store[k.pl].slice == Slice(0, 2048, 2048))
              && match s.mem.store[k.pl].origin
                 case Pooled =>
                   && (forall g, q: Queue :: 0 <= g < |s.sessions| ==> k.pl !in s.sessions[g].Of(q))
                   && (forall v :: 0 <= v < |s.workers| && v != w && s.workers[v].Holds() ==> s.workers[v].pl != k.pl)
                 case TlsTimer(g) => k.role.TlsSender? && k.session == g && s.Put(w).mem == s.mem
                 case DtlsTimer(g) => k.role.DtlsSender? && k.session == g && s.Put(w).mem == s.mem
  {
    hide Everywhere, Initial, Next, SessionRight;
    InitialValid(offset);
    RunKeeps(Initial(offset), run);
    var s := After(Initial(offset), run);
    if w < |s.workers| && s.workers[w].Holds() {
      var k := s.workers[w];
      assert HeldRight(s.mem.store, k) && s.mem.store[k.pl].Sound();
      if k.pl in s.mem.pool { PoolExclusive(s, k.pl); }
      if s.mem.store[k.pl].origin.Pooled? { Exclusive(s, w); }
    }
  }

  /** In every run, the queue to the tunnel has data only, and a timer's payload keeps its type and its
      capacity and is queued for its own channel and session only. */
  lemma QueueContents(offset: nat, run: seq<Step>, g: nat, q: Queue, h: Handle)
    ensures var s := After(Initial(offset), run);
            g < |s.sessions| && h in s.sessions[g].Of(q) ==>
              h < |s.mem.store| &&
              var slice := s.mem.store[h].slice;
              match s.mem.store[h].origin
              case Pooled => slice.kind == DATA || (!q.PayloadIn? && slice.kind == DPD_RESP)
              case TlsTimer(t) => t == g && q.OutTls? && slice.kind == DPD_REQ && slice.cap == 8
              case DtlsTimer(t) => t == g && q.OutDtls? && slice.kind == DPD_REQ && slice.cap == 1
  {
    hide Everywhere, Initial, Next, HeldRight, PooledRight;
    InitialValid(offset);
    RunKeeps(Initial(offset), run);
    var s := After(Initial(offset), run);
    if g < |s.sessions| && h in s.sessions[g].Of(q) {
      assert SessionRight(s.mem.store, s.sessions[g], g);
      assert QueuedRight(s.mem.store, h, g, q) && s.mem.store[h].Sound();
    }
  }

  /** The steps would allow it: a loop that put back what it has just queued would leave the payload in
      two places, and the invariant would be lost. */
  lemma PutAfterPush(s: State, w: nat, q: Queue)
    requires Valid(s) && w < |s.workers| && s.workers[w].Holds() && !s.Full(s.workers[w].session, q)
    requires s.mem.At(s.workers[w].pl).slice.cap == BUFFER_SIZE
    ensures var t, h := s.Push(w, q).Put(w), s.workers[w].pl;
            h in t.mem.pool && h in t.sessions[s.workers[w].session].Of(q) && !Valid(t)
  {
    hide Everywhere, SessionRight, HeldRight, PooledRight, Single;
    var k, t := s.workers[w], s.Push(w, q).Put(w);
    QueueLonger(s.sessions[k.session], q, k.pl);
    if Valid(t) { PoolExclusive(t, k.pl); }
  }

  /** A packet read from the tunnel behind an offset has lost that much capacity: it can go back to the
      pool if and only if the offset is zero. */
  lemma ReadCapacity(s: State, w: nat, o: Outside)
    requires Valid(s) && w < |s.workers| && s.workers[w].role.TunReader? && s.workers[w].pc.Reading?
    requires !o.fails && s.offset + o.n <= BUFFER_SIZE
    ensures var m, h := TunReaderStep(s, w, o).mem, s.workers[w].pl;
            && m.At(h).slice == Slice(DATA, o.n, BUFFER_SIZE - s.offset)
            && (h in m.Put(h).pool <==> s.offset == 0)
  {
    hide Everywhere, SessionRight, Single;
    assert HeldRight(s.mem.store, s.workers[w]);
    if s.workers[w].pl in s.mem.pool { PoolExclusive(s, s.workers[w].pl); }
  }

  /** When a read or a write fails or a select takes its closing branch, the loop exits, and what it held is
      left to the collector; only the tunnel reader, on its way to a DTLS channel that is closed, goes on with
      the next packet. */
  lemma ClosingBranch(s: State, w: nat, o: Outside)
    requires Valid(s) && w < |s.workers| && o.fails
    ensures var k, t := s.workers[w], Next(s, Advance(w, o));
            match k.pc
            case Popping => k.role.Source().Some? ==> t == s.Goto(w, Exited)
            case Reading => k.role.Source().None? ==> t == s.Goto(w, Exited)
            case Writing => k.role.Source().Some? ==> t == s.Goto(w, Exited)
            case Passing => (k.role.TlsReceiver? || k.role.DtlsReceiver?) ==> t == s.Goto(w, Exited)
            case Answering => (k.role.TlsReceiver? || k.role.DtlsReceiver?) ==> t == s.Goto(w, Exited)
            case ToTls => k.role.TunReader? ==> t == s.Goto(w, Exited)
            case ToDtls => k.role.TunReader? ==> t == s.Goto(w, Getting)
            case Exited => t == s
            case _ => true
  {
    hide Valid;
  }

  // ----- payloads do go round

  function Receiver(ch: Frames.Channel): Role {
    if ch.Tls? then TlsReceiver else DtlsReceiver
  }

  function Sender(ch: Frames.Channel): Role {
    if ch.Tls? then TlsSender else DtlsSender
  }

  /** A session with two loops, the only ones. */
  function TwoLoops(a: Role, b: Role): seq<Step> {
    [NewSession, Start(a, 0), Start(b, 0)]
  }

  lemma AfterSnoc(s: State, run: seq<Step>, step: Step)
    ensures After(s, run + [step]) == Next(After(s, run), step)
  {
    hide Next;
    assert (run + [step])[..|run|] == run;
  }

  const TIMER := [Cell(Slice(DPD_REQ, 0, 8), TlsTimer(0)), Cell(Slice(DPD_REQ, 0, 1), DtlsTimer(0))]

  function Begun(offset: nat, a: Role, b: Role): State {
    State(Memory(TIMER, multiset{}), [Session([], [], [], 0, 1)],
          [Worker(a, 0, if a.Source().Some? then Popping else Getting, 0),
           Worker(b, 0, if b.Source().Some? then Popping else Getting, 0)], offset)
  }

  lemma TwoLoopsBegin(offset: nat, a: Role, b: Role)
    ensures After(Initial(offset), TwoLoops(a, b)) == Begun(offset, a, b)
  {
    hide After, Next;
    var s := Initial(offset);
    AfterSnoc(s, [], NewSession);
    AfterSnoc(s, [NewSession], Start(a, 0));
    AfterSnoc(s, [NewSession, Start(a, 0)], Start(b, 0));
    assert [] + [NewSession] == [NewSession] && [NewSession] + [Start(a, 0)] == [NewSession, Start(a, 0)];
    assert [NewSession, Start(a, 0)] + [Start(b, 0)] == TwoLoops(a, b);
    Nothing(s);
    FirstSession(offset);
    StartTwo(offset, a, b);
  }

  lemma Nothing(s: State)
    ensures After(s, []) == s
  {
  }

  lemma FirstSession(offset: nat)
    ensures Next(Initial(offset), NewSession) ==
            State(Memory(TIMER, multiset{}), [Session([], [], [], 0, 1)], [], offset)
  {
  }

  lemma StartTwo(offset: nat, a: Role, b: Role)
    ensures Next(Next(State(Memory(TIMER, multiset{}), [Session([], [], [], 0, 1)], [], offset), Start(a, 0)),
                 Start(b, 0)) == Begun(offset, a, b)
  {
    hide Role.Source;
  }

  /** Six statements, in this order: three of the first loop, then three of the second. */
  function Six(o: Outside): seq<Step> {
    [Advance(0, o), Advance(0, o), Advance(0, o), Advance(1, o), Advance(1, o), Advance(1, o)]
  }

  lemma AfterSix(s: State, run: seq<Step>, o: Outside)
    ensures After(s, run + Six(o)) ==
            Next(Next(Next(Next(Next(Next(After(s, run), Advance(0, o)), Advance(0, o)), Advance(0, o)),
                           Advance(1, o)), Advance(1, o)), Advance(1, o))
  {
    hide Next;
    var a, b := Advance(0, o), Advance(1, o);
    AfterSnoc(s, run, a);
    AfterSnoc(s, run + [a], a);
    AfterSnoc(s, run + [a] + [a], a);
    AfterSnoc(s, run + [a] + [a] + [a], b);
    AfterSnoc(s, run + [a] + [a] + [a] + [b], b);
    AfterSnoc(s, run + [a] + [a] + [a] + [b] + [b], b);
    assert run + [a] + [a] + [a] + [b] + [b] + [b] == run + Six(o);
  }

  /** One payload of the pool, in one session with two loops at these points, and in at most one queue. */
  function Scene(offset: nat, slice: Slice, q: Option<Queue>, a: Role, pa: Point, b: Role, pb: Point,
                 hb: Handle): State
  {
    var empty := Session([], [], [], 0, 1);
    State(Memory(TIMER + [Cell(slice, Pooled)], multiset{}),
          [match q case None => empty case Some(r) => empty.With(r, [2])],
          [Worker(a, 0, pa, 2), Worker(b, 0, pb, hb)], offset)
  }

  lemma Gets(offset: nat, a: Role, b: Role, o: Outside)
    requires a.Source().None? && b.Source().Some? && o.wish == 9
    ensures Next(Begun(offset, a, b), Advance(0, o)) == Scene(offset, READY, None, a, Reading, b, Popping, 0)
  {
  }

  /** The first loop reads, and goes where what it has read takes it. */
  lemma Reads(offset: nat, a: Role, b: Role, o: Outside, x: Slice, pc: Point)
    requires !o.fails && a.Source().None?
    requires if a.TunReader? then
               offset + o.n <= BUFFER_SIZE && x == Slice(DATA, o.n, BUFFER_SIZE - offset) && pc == Choosing
             else if o.kind == 0 then
               a.Channel().Overhead() + o.n <= BUFFER_SIZE && x == Slice(DATA, o.n, BUFFER_SIZE) && pc == Passing
             else o.kind == 3 && x == READY.(kind := DPD_RESP) && pc == Answering
    ensures Next(Scene(offset, READY, None, a, Reading, b, Popping, 0), Advance(0, o)) ==
            Scene(offset, x, None, a, pc, b, Popping, 0)
  {
  }

  lemma Chooses(offset: nat, x: Slice, b: Role, o: Outside)
    ensures Next(Scene(offset, x, None, TunReader, Choosing, b, Popping, 0), Advance(0, o)) ==
            Scene(offset, x, None, TunReader, if o.dtlsUp then ToDtls else ToTls, b, Popping, 0)
  {
  }

  /** The first loop passes its payload on. */
  lemma Pushes(offset: nat, x: Slice, q: Queue, a: Role, pa: Point, b: Role, o: Outside)
    requires !o.fails && a.Source().None?
    requires if a.TunReader? then (pa.ToTls? && q.OutTls?) || (pa.ToDtls? && q.OutDtls?)
             else (pa.Passing? && q.PayloadIn?) || (pa.Answering? && q == a.Out())
    ensures Next(Scene(offset, x, None, a, pa, b, Popping, 0), Advance(0, o)) ==
            Scene(offset, x, Some(q), a, Getting, b, Popping, 0)
  {
    assert [] + [2] == [2];
    assert Scene(offset, x, None, a, pa, b, Popping, 0).Push(0, q) ==
           Scene(offset, x, Some(q), a, Getting, b, Popping, 0);
  }

  lemma Pops(offset: nat, x: Slice, q: Queue, a: Role, b: Role, o: Outside)
    requires !o.fails && b.Source() == Some(q)
    ensures Next(Scene(offset, x, Some(q), a, Getting, b, Popping, 0), Advance(1, o)) ==
            Scene(offset, x, None, a, Getting, b, if b.TunWriter? then Writing else Framing, 2)
  {
    assert [2][1..] == [];
    var pc := if b.TunWriter? then Writing else Framing;
    assert Scene(offset, x, Some(q), a, Getting, b, Popping, 0).Pop(1, q, pc) ==
           Scene(offset, x, None, a, Getting, b, pc, 2);
  }

  /** A sender frames what it holds. */
  lemma Builds(offset: nat, x: Slice, a: Role, b: Role, o: Outside, y: Slice)
    requires b.TlsSender? || b.DtlsSender?
    requires var h := if b.TlsSender? then 8 else 1;
             if x.kind != DATA then y == x.Replaced(h, o.grown)
             else o.n <= x.len && h + o.n <= x.cap && y == x.(len := h + o.n)
    ensures Next(Scene(offset, x, None, a, Getting, b, Framing, 2), Advance(1, o)) ==
            Scene(offset, y, None, a, Getting, b, Writing, 2)
  {
  }

  lemma Writes(offset: nat, x: Slice, a: Role, b: Role, o: Outside)
    requires !o.fails && b.Source().Some?
    ensures Next(Scene(offset, x, None, a, Getting, b, Writing, 2), Advance(1, o)) ==
            Scene(offset, x, None, a, Getting, b, Putting, 2)
  {
  }

  /** The payload is back in the pool, ready, and nowhere else. */
  predicate Returned(s: State) {
    && s.mem == Memory(TIMER + [Cell(READY, Pooled)], multiset{2}) && s.sessions == [Session([], [], [], 0, 1)]
    && forall w :: 0 <= w < |s.workers| ==> !s.workers[w].Holds()
  }

  lemma Puts(offset: nat, x: Slice, a: Role, b: Role, o: Outside)
    requires x.cap == BUFFER_SIZE && b.Source().Some?
    ensures Returned(Next(Scene(offset, x, None, a, Getting, b, Putting, 2), Advance(1, o)))
  {
    assert (TIMER + [Cell(x, Pooled)])[2 := Cell(READY, Pooled)] == TIMER + [Cell(READY, Pooled)];
  }

  /** A packet from the server goes through the queue to the tunnel, and its payload back to the pool. */
  lemma InboundCycle(offset: nat, ch: Frames.Channel, n: nat)
    requires n + ch.Overhead() <= 2048
    ensures var o := Outside(false, 9, 0, n, 0, false);
            Returned(After(Initial(offset), TwoLoops(Receiver(ch), TunWriter) + Six(o)))
  {
    hide After, Next, Scene, Returned, Six, Initial, Begun;
    var o, a, b := Outside(false, 9, 0, n, 0, false), Receiver(ch), TunWriter;
    var x := Slice(DATA, n, BUFFER_SIZE);
    TwoLoopsBegin(offset, a, b);
    AfterSix(Initial(offset), TwoLoops(a, b), o);
    Gets(offset, a, b, o);
    Reads(offset, a, b, o, x, Passing);
    Pushes(offset, x, PayloadIn, a, Passing, b, o);
    Pops(offset, x, PayloadIn, a, b, o);
    Writes(offset, x, a, b, o);
    Puts(offset, x, a, b, o);
  }

  /** A request of the server is answered with the payload that brought it, which returns to the pool. */
  lemma AnswerCycle(offset: nat, ch: Frames.Channel)
    ensures var o := Outside(false, 9, 3, 0, 0, false);
            Returned(After(Initial(offset), TwoLoops(Receiver(ch), Sender(ch)) + Six(o) + [Advance(1, o)]))
  {
    hide After, Next, Scene, Returned, Six, Initial, Begun;
    var o, a, b := Outside(false, 9, 3, 0, 0, false), Receiver(ch), Sender(ch);
    var x, q := READY.(kind := DPD_RESP), if ch.Tls? then OutTls else OutDtls;
    var y := x.Replaced(ch.Overhead(), 0);
    TwoLoopsBegin(offset, a, b);
    AfterSix(Initial(offset), TwoLoops(a, b), o);
    AfterSnoc(Initial(offset), TwoLoops(a, b) + Six(o), Advance(1, o));
    Gets(offset, a, b, o);
    Reads(offset, a, b, o, x, Answering);
    Pushes(offset, x, q, a, Answering, b, o);
    Pops(offset, x, q, a, b, o);
    Builds(offset, x, a, b, o, y);
    Writes(offset, y, a, b, o);
    Puts(offset, y, a, b, o);
  }

  /** A packet from the tunnel goes through the queue of the channel that is up to the server, and, read
      without an offset, its payload back to the pool. */
  lemma OutboundCycle(ch: Frames.Channel, n: nat)
    requires n + ch.Overhead() <= 2048
    ensures var o := Outside(false, 9, 0, n, 0, ch.Dtls?);
            Returned(After(Initial(0), TwoLoops(TunReader, Sender(ch)) + [Advance(0, o)] + Six(o) + [Advance(1, o)]))
  {
    hide After, Next, Scene, Returned, Six, Initial, Begun;
    var o, a, b := Outside(false, 9, 0, n, 0, ch.Dtls?), TunReader, Sender(ch);
    var x, y := Slice(DATA, n, BUFFER_SIZE), Slice(DATA, ch.Overhead() + n, BUFFER_SIZE);
    var q, to := if ch.Tls? then OutTls else OutDtls, if ch.Tls? then ToTls else ToDtls;
    TwoLoopsBegin(0, a, b);
    AfterSnoc(Initial(0), TwoLoops(a, b), Advance(0, o));
    AfterSix(Initial(0), TwoLoops(a, b) + [Advance(0, o)], o);
    AfterSnoc(Initial(0), TwoLoops(a, b) + [Advance(0, o)] + Six(o), Advance(1, o));
    Gets(0, a, b, o);
    Reads(0, a, b, o, x, Choosing);
    Chooses(0, x, b, o);
    Pushes(0, x, q, a, to, b, o);
    Pops(0, x, q, a, b, o);
    Builds(0, x, a, b, o, y);
    Writes(0, y, a, b, o);
    Puts(0, y, a, b, o);
  }
}
