/** The send and receive loops of both channels, working in place on payload buffers. */
module FrameLoops {
  import opened Bits
  import opened Wrappers
  import opened LzsFormat
  import opened LzsParse
  import opened Frames
  import LzsCompress
  import LzsDecompress

  /** A payload: the first len bytes of a buffer whose length is the capacity of the slice. */
  class Payload {
    var kind: byte
    var buf: array<byte>
    var len: nat

    ghost predicate Valid() reads this {
      len <= buf.Length
    }

    ghost function Data(): seq<byte>
      requires Valid()
      reads this, buf
    {
      buf[..len]
    }

    /** A pool payload: type zero, length and capacity 2048. */
    constructor ()
      ensures Valid() && fresh(buf) && kind == DATA && len == BUFFER_SIZE == buf.Length
    {
      kind, len := DATA, BUFFER_SIZE;
      buf := new byte[BUFFER_SIZE](_ => 0);
    }

    /** append(Data[:0], s...): in place if the capacity allows, otherwise in a larger buffer. */
    method Replace(s: seq<byte>)
      requires Valid()
      modifies this, buf
      ensures Valid() && Data() == s && kind == old(kind)
      ensures |s| <= old(buf.Length) ==> buf == old(buf)
      ensures |s| > old(buf.Length) ==> fresh(buf)
    {
      if |s| <= buf.Length {
        forall i | 0 <= i < |s| {
          buf[i] := s[i];
        }
        len := |s|;
      } else {
        buf := new byte[|s|](i requires 0 <= i < |s| => s[i]);
        len := |s|;
      }
    }

    /** Makes room for a header: Data = Data[:len+n], then an overlapping copy n places up. */
    method ShiftUp(n: nat)
      requires Valid() && len + n <= buf.Length
      modifies this`len, buf
      ensures Valid() && len == old(len) + n && Data()[n..] == old(Data())
    {
      var l := len;
      len := len + n;
      forall i | 0 <= i < l {
        buf[n + i] := buf[i];
      }
    }

    /** Strips n bytes and keeps count: copy(Data, Data[n:n+count]), then Data = Data[:count]. */
    method ShiftDown(n: nat, count: nat)
      requires Valid() && n + count <= len
      modifies this`len, buf
      ensures Valid() && Data() == old(Data())[n..n + count]
    {
      ghost var before := Data();
      forall i | 0 <= i < count {
        buf[i] := buf[n + i];
      }
      len := count;
      assert forall i :: 0 <= i < count ==> buf[i] == before[n + i];
    }

    /** Overwrites the front: a header, or what a read puts there. The length is left alone. */
    method Fill(s: seq<byte>)
      requires Valid() && |s| <= len
      modifies buf
      ensures Data() == s + old(Data())[|s|..]
    {
      forall i | 0 <= i < |s| {
        buf[i] := s[i];
      }
    }
  }

  datatype Size = Size(n: nat) | Unable

  method CompressData(c: Compression, src: seq<byte>, dst: array<byte>) returns (r: Size)
    modifies dst
    ensures match CompressedBy(c, src, dst.Length)
            case None => r == Unable
            case Some(d) => r == Size(|d|) && |d| <= dst.Length && dst[..|d|] == d
  {
    hide Compressed;
    match c {
      case CompLZS =>
        var n := LzsCompress.Compress(dst, src);
        match n {
          case Count(k) => r := Size(k);
          case Failed(_) => r := Unable;
        }
      case _ => r := Unable;
    }
  }

  method DecompressData(c: Compression, src: seq<byte>, dst: array<byte>) returns (r: Size)
    modifies dst
    ensures match DecompressedBy(c, src, dst.Length)
            case None => r == Unable
            case Some(d) => r == Size(|d|) && |d| <= dst.Length && dst[..|d|] == d
  {
    hide Decode, Unpack;
    match c {
      case CompLZS =>
        var n := LzsDecompress.Decompress(dst, src);
        match n {
          case Count(k) => r := Size(k);
          case Failed(_) => r := Unable;
        }
      case _ => r := Unable;
    }
  }

  class Counters {
    var original: nat
    var wire: nat
    var bytes: nat

    constructor ()
      ensures Value() == Stat(0, 0, 0)
    {
      original, wire, bytes := 0, 0, 0;
    }

    ghost function Value(): Stat reads this {
      Stat(original, wire, bytes)
    }
  }

  // ----- sending

  /** Compresses in place when that is agreed and pays. */
  method Squeeze(pl: Payload, c: Compression, compressBuf: array<byte>, stat: Counters) returns (compressed: bool)
    requires pl.Valid() && compressBuf.Length == COMPRESS_SIZE && compressBuf != pl.buf
    modifies pl, pl.buf, compressBuf, stat
    ensures pl.Valid() && pl.buf == old(pl.buf) && pl.kind == old(pl.kind)
    ensures Body(if compressed then COMPRESSED else DATA, pl.Data()) == BodyOf(c, old(pl.Data()))
    ensures stat.bytes == old(stat.bytes)
    ensures stat.original == old(stat.original) + if c != CompNone then |old(pl.Data())| else 0
    ensures stat.wire == old(stat.wire) + if c != CompNone then |pl.Data()| else 0
  {
    hide Compressed;
    compressed := false;
    if c != CompNone {
      var original := pl.len;
      var r := CompressData(c, pl.buf[..pl.len], compressBuf);
      if r.Size? && r.n < pl.len {
        pl.Replace(compressBuf[..r.n]);
        compressed := true;
      }
      stat.original := stat.original + original;
      stat.wire := stat.wire + pl.len;
    }
  }

  /** Builds the TLS frame of a payload in its own buffer. */
  method SendTls(pl: Payload, c: Compression, compressBuf: array<byte>, stat: Counters) returns (frame: seq<byte>)
    requires pl.Valid() && compressBuf.Length == COMPRESS_SIZE && compressBuf != pl.buf
    requires pl.kind == DATA ==> pl.len + 8 <= pl.buf.Length <= BUFFER_SIZE
    modifies pl, pl.buf, compressBuf, stat
    ensures pl.Valid() && pl.kind == old(pl.kind) && (old(pl.buf.Length) >= 8 ==> pl.buf == old(pl.buf))
    ensures frame == Sent(Tls, c, Packet(old(pl.kind), old(pl.Data())))
    ensures stat.Value() == old(stat.Value()).Plus(SentStat(Tls, c, Packet(old(pl.kind), old(pl.Data()))))
  {
    hide BodyOf;
    if pl.kind == DATA {
      var compressed := Squeeze(pl, c, compressBuf, stat);
      var l := pl.len;
      pl.ShiftUp(8);
      pl.Fill([0x53, 0x54, 0x46, 0x01, l / 0x100, l % 0x100, if compressed then COMPRESSED else DATA, 0]);
    } else {
      pl.Replace([0x53, 0x54, 0x46, 0x01, 0, 0, pl.kind, 0]);
    }
    frame := pl.buf[..pl.len];
    stat.bytes := stat.bytes + |frame|;
  }

  /** Builds the DTLS datagram of a payload in its own buffer. */
  method SendDtls(pl: Payload, c: Compression, compressBuf: array<byte>, stat: Counters) returns (frame: seq<byte>)
    requires pl.Valid() && compressBuf.Length == COMPRESS_SIZE && compressBuf != pl.buf
    requires pl.kind == DATA ==> pl.len + 1 <= pl.buf.Length <= BUFFER_SIZE
    modifies pl, pl.buf, compressBuf, stat
    ensures pl.Valid() && pl.kind == old(pl.kind) && (old(pl.buf.Length) >= 1 ==> pl.buf == old(pl.buf))
    ensures frame == Sent(Dtls, c, Packet(old(pl.kind), old(pl.Data())))
    ensures stat.Value() == old(stat.Value()).Plus(SentStat(Dtls, c, Packet(old(pl.kind), old(pl.Data()))))
  {
    hide BodyOf;
    if pl.kind == DATA {
      var compressed := Squeeze(pl, c, compressBuf, stat);
      pl.ShiftUp(1);
      pl.Fill([if compressed then COMPRESSED else pl.kind]);
    } else {
      pl.Replace([pl.kind]);
    }
    frame := pl.buf[..pl.len];
    stat.bytes := stat.bytes + |frame|;
  }

  /** One packet: into a pool payload and from there to a frame. */
  method SendOne(ch: Channel, c: Compression, p: Packet, compressBuf: array<byte>, stat: Counters)
    returns (frame: seq<byte>)
    requires Fits(ch, p) && compressBuf.Length == COMPRESS_SIZE
    modifies compressBuf, stat
    ensures frame == Sent(ch, c, p)
    ensures stat.Value() == old(stat.Value()).Plus(SentStat(ch, c, p))
  {
    hide Sent, SentStat;
    var pl := new Payload();
    pl.kind := p.kind;
    var taken := if p.kind == DATA then p.data else [];
    pl.Fill(taken);
    pl.len := |taken|;
    assert pl.Data() == taken;
    SentSame(ch, c, p, Packet(p.kind, taken));
    match ch {
      case Tls => frame := SendTls(pl, c, compressBuf, stat);
      case Dtls => frame := SendDtls(pl, c, compressBuf, stat);
    }
  }

  /** The send loop over the packets queued by the tunnel reader and the timers. */
  method SendLoop(ch: Channel, c: Compression, queue: seq<Packet>, stat: Counters) returns (wire: seq<seq<byte>>)
    requires AllFit(ch, queue)
    modifies stat
    ensures wire == SentAll(ch, c, queue)
    ensures stat.Value() == old(stat.Value()).Plus(SentTotal(ch, c, queue))
  {
    hide Sent, SentStat, SentAll, SentTotal;
    var compressBuf := new byte[COMPRESS_SIZE](_ => 0);
    wire := [];
    var i := 0;
    SendStep(ch, c, queue, 0);
    while i < |queue|
      invariant 0 <= i <= |queue|
      invariant wire == SentAll(ch, c, queue[..i])
      invariant stat.Value() == old(stat.Value()).Plus(SentTotal(ch, c, queue[..i]))
    {
      SendStep(ch, c, queue, i);
      var frame := SendOne(ch, c, queue[i], compressBuf, stat);
      wire := wire + [frame];
      i := i + 1;
    }
    assert queue[..i] == queue;
  }

  lemma SendStep(ch: Channel, c: Compression, queue: seq<Packet>, i: nat)
    requires AllFit(ch, queue) && i <= |queue|
    ensures SentAll(ch, c, queue[..0]) == [] && SentTotal(ch, c, queue[..0]) == Stat(0, 0, 0)
    ensures i < |queue| ==> SentAll(ch, c, queue[..i + 1]) == SentAll(ch, c, queue[..i]) + [Sent(ch, c, queue[i])]
    ensures i < |queue| ==>
              SentTotal(ch, c, queue[..i + 1]) == SentTotal(ch, c, queue[..i]).Plus(SentStat(ch, c, queue[i]))
  {
    hide Sent, SentStat;
    if i < |queue| {
      assert queue[..i + 1][..i] == queue[..i];
    }
  }

  lemma SentSame(ch: Channel, c: Compression, p: Packet, q: Packet)
    requires Fits(ch, p) && q.kind == p.kind && (p.kind == DATA ==> q.data == p.data)
    ensures Fits(ch, q) && Sent(ch, c, q) == Sent(ch, c, p) && SentStat(ch, c, q) == SentStat(ch, c, p)
  {
  }

  // ----- receiving

  /** What the receive loop does with a frame after reading it. */
  datatype Action = Pass | Answer | Nothing | Quit

  predicate Matches(a: Action, e: Event) {
    match e
    case Deliver(_) => a == Pass
    case Reply => a == Answer
    case Ignore => a == Nothing
    case Stop => a == Quit
  }

  /** Replaces a compressed body by what it stands for. */
  method DecompressBody(pl: Payload, c: Compression, at: nat, count: nat, decompressBuf: array<byte>) returns (ok: bool)
    requires pl.Valid() && at + count <= pl.len && decompressBuf.Length == DECOMPRESS_SIZE && decompressBuf != pl.buf
    modifies pl, pl.buf, decompressBuf
    ensures pl.Valid() && pl.kind == old(pl.kind) && (pl.buf == old(pl.buf) || fresh(pl.buf))
    ensures match DecompressedBy(c, old(pl.Data())[at..at + count], DECOMPRESS_SIZE)
            case None => !ok
            case Some(d) => ok && pl.Data() == d
  {
    hide DecompressedBy;
    var body := pl.buf[..pl.len][at..at + count];
    var r := DecompressData(c, body, decompressBuf);
    if r.Unable? {
      return false;
    }
    pl.Replace(decompressBuf[..r.n]);
    return true;
  }

  /** Handles one frame that a read has put into a pool payload. */
  method ReceiveTls(pl: Payload, c: Compression, frame: seq<byte>, decompressBuf: array<byte>, stat: Counters)
    returns (a: Action)
    requires pl.Valid() && pl.len == BUFFER_SIZE && Complete(Tls, frame)
    requires decompressBuf.Length == DECOMPRESS_SIZE && decompressBuf != pl.buf
    modifies pl, pl.buf, decompressBuf, stat
    ensures pl.Valid() && (pl.buf == old(pl.buf) || fresh(pl.buf))
    ensures Matches(a, Received(Tls, c, frame))
    ensures a == Pass ==> pl.Data() == Received(Tls, c, frame).data
    ensures frame[6] == 0 ==> a == Pass && pl.Data() == frame[8..]
    ensures a == Answer <==> frame[6] == 3
    ensures frame[6] !in {0, 3, 8} ==> a == Nothing
    ensures pl.kind == if a == Answer then DPD_RESP else old(pl.kind)
    ensures stat.Value() == old(stat.Value()).Plus(ReceivedStat(Tls, c, frame))
  {
    hide DecompressedBy;
    pl.Fill(frame);
    assert pl.Data()[..|frame|] == frame;
    var kind := pl.buf[6];
    var dataLen := pl.buf[4] as int * 0x100 + pl.buf[5] as int;
    assert pl.Data()[8..8 + dataLen] == WireOf(Tls, frame);
    assert kind == frame[6];
    a := Nothing;
    if kind == DATA {
      if c != CompNone {
        stat.wire := stat.wire + dataLen;
        stat.original := stat.original + dataLen;
      }
      pl.ShiftDown(8, dataLen);
      a := Pass;
    } else if kind == COMPRESSED {
      var ok := DecompressBody(pl, c, 8, dataLen, decompressBuf);
      if !ok {
        return Quit;
      }
      if c != CompNone {
        stat.wire := stat.wire + dataLen;
        stat.original := stat.original + pl.len;
      }
      a := Pass;
    } else if kind == DPD_REQ {
      pl.kind := DPD_RESP;
      a := Answer;
    }
    stat.bytes := stat.bytes + |frame|;
  }

  method ReceiveDtls(pl: Payload, c: Compression, frame: seq<byte>, decompressBuf: array<byte>, stat: Counters)
    returns (a: Action)
    requires pl.Valid() && pl.len == BUFFER_SIZE && Complete(Dtls, frame)
    requires decompressBuf.Length == DECOMPRESS_SIZE && decompressBuf != pl.buf
    modifies pl, pl.buf, decompressBuf, stat
    ensures pl.Valid() && (pl.buf == old(pl.buf) || fresh(pl.buf))
    ensures Matches(a, Received(Dtls, c, frame))
    ensures a == Pass ==> pl.Data() == Received(Dtls, c, frame).data
    ensures frame[0] == 0 ==> a == Pass && pl.Data() == frame[1..]
    ensures a == Answer <==> frame[0] == 3
    ensures frame[0] == 5 ==> a == Quit
    ensures frame[0] !in {0, 3, 5, 8} ==> a == Nothing
    ensures pl.kind == if a == Answer then DPD_RESP else old(pl.kind)
    ensures stat.Value() == old(stat.Value()).Plus(ReceivedStat(Dtls, c, frame))
  {
    hide DecompressedBy;
    pl.Fill(frame);
    assert pl.Data()[..|frame|] == frame;
    var kind := pl.buf[0];
    var count := |frame| - 1;
    assert pl.Data()[1..1 + count] == WireOf(Dtls, frame);
    assert kind == frame[0];
    a := Nothing;
    if kind == DISCONNECT {
      return Quit;
    } else if kind == DPD_REQ {
      pl.kind := DPD_RESP;
      a := Answer;
    } else if kind == DATA {
      if c != CompNone {
        stat.wire := stat.wire + count;
        stat.original := stat.original + count;
      }
      pl.ShiftDown(1, count);
      a := Pass;
    } else if kind == COMPRESSED {
      var ok := DecompressBody(pl, c, 1, count, decompressBuf);
      if !ok {
        return Quit;
      }
      if c != CompNone {
        stat.wire := stat.wire + count;
        stat.original := stat.original + pl.len;
      }
      a := Pass;
    }
    stat.bytes := stat.bytes + |frame|;
  }

  /** One frame: into a pool payload, and what becomes of it. */
  method ReceiveOne(ch: Channel, c: Compression, frame: seq<byte>, decompressBuf: array<byte>, stat: Counters)
    returns (a: Action, data: seq<byte>)
    requires Complete(ch, frame) && decompressBuf.Length == DECOMPRESS_SIZE
    modifies decompressBuf, stat
    ensures Matches(a, Received(ch, c, frame))
    ensures a == Pass ==> data == Received(ch, c, frame).data
    ensures stat.Value() == old(stat.Value()).Plus(ReceivedStat(ch, c, frame))
  {
    hide Received, ReceivedStat, Complete;
    var pl := new Payload();
    match ch {
      case Tls => a := ReceiveTls(pl, c, frame, decompressBuf, stat);
      case Dtls => a := ReceiveDtls(pl, c, frame, decompressBuf, stat);
    }
    data := pl.buf[..pl.len];
  }

  /** The receive loop: what is passed to the tunnel. */
  method ReceiveLoop(ch: Channel, c: Compression, wire: seq<seq<byte>>, stat: Counters)
    returns (passed: seq<seq<byte>>, ghost events: seq<Event>)
    requires AllComplete(ch, wire)
    modifies stat
    ensures events == ReceivedAll(ch, c, wire) && passed == Payloads(events)
    ensures stat.Value() == old(stat.Value()).Plus(ReceivedTotal(ch, c, wire))
  {
    hide Received, ReceivedStat, Complete, ReceivedAll, ReceivedTotal, Payloads;
    var decompressBuf := new byte[DECOMPRESS_SIZE](_ => 0);
    passed, events := [], [];
    NothingReceived(ch, c);
    assert wire[..0] == [];
    var i, stopped := 0, false;
    while i < |wire| && !stopped
      invariant 0 <= i <= |wire|
      invariant events == ReceivedAll(ch, c, wire[..i]) && passed == Payloads(events)
      invariant stopped <==> Stopped(events)
      invariant stat.Value() == old(stat.Value()).Plus(ReceivedTotal(ch, c, wire[..i]))
    {
      ReceiveStep(ch, c, wire, i);
      var a, data := ReceiveOne(ch, c, wire[i], decompressBuf, stat);
      events := events + [Received(ch, c, wire[i])];
      if a == Pass {
        passed := passed + [data];
      } else if a == Quit {
        stopped := true;
      }
      i := i + 1;
    }
    if stopped {
      StopEnds(ch, c, wire, i);
    } else {
      assert wire[..i] == wire;
    }
  }

  lemma NothingReceived(ch: Channel, c: Compression)
    ensures ReceivedAll(ch, c, []) == [] && Payloads([]) == [] && ReceivedTotal(ch, c, []) == Stat(0, 0, 0)
  {
  }

  lemma ReceiveStep(ch: Channel, c: Compression, wire: seq<seq<byte>>, i: nat)
    requires AllComplete(ch, wire) && i < |wire| && !Stopped(ReceivedAll(ch, c, wire[..i]))
    ensures var es, e := ReceivedAll(ch, c, wire[..i]), Received(ch, c, wire[i]);
            && ReceivedAll(ch, c, wire[..i + 1]) == es + [e]
            && Payloads(es + [e]) == Payloads(es) + (match e case Deliver(d) => [d] case _ => [])
            && ReceivedTotal(ch, c, wire[..i + 1]) == ReceivedTotal(ch, c, wire[..i]).Plus(ReceivedStat(ch, c, wire[i]))
  {
    hide Received, ReceivedStat, Complete, Payloads;
    assert wire[..i + 1][..i] == wire[..i];
    PayloadsStep(ReceivedAll(ch, c, wire[..i]), Received(ch, c, wire[i]));
  }

  lemma PayloadsStep(es: seq<Event>, e: Event)
    ensures Payloads(es + [e]) == Payloads(es) + match e case Deliver(d) => [d] case _ => []
  {
    assert (es + [e])[..|es|] == es;
  }

  /** Nothing follows a Stop. */
  lemma {:induction false} StopEnds(ch: Channel, c: Compression, wire: seq<seq<byte>>, i: nat)
    requires AllComplete(ch, wire) && i <= |wire| && Stopped(ReceivedAll(ch, c, wire[..i]))
    ensures ReceivedAll(ch, c, wire) == ReceivedAll(ch, c, wire[..i])
    ensures ReceivedTotal(ch, c, wire) == ReceivedTotal(ch, c, wire[..i])
    decreases |wire|
  {
    hide Received, ReceivedStat, Complete;
    if i == |wire| {
      assert wire[..i] == wire;
    } else {
      var n := |wire| - 1;
      assert wire[..n][..i] == wire[..i];
      StopEnds(ch, c, wire[..n], i);
    }
  }

  /** A lossless exchange between two ends that run these loops: what arrives is what was sent, the
      counters of the two ends agree, and compression has not made the traffic grow. */
  method LosslessRun(ch: Channel, c: Compression, queue: seq<Packet>)
    returns (passed: seq<seq<byte>>, sent: Stat, received: Stat)
    requires AllFit(ch, queue) && Ordinary(queue)
    ensures passed == DataOf(queue)
    ensures received == sent && sent.wire <= sent.original
  {
    hide SentAll, SentTotal, ReceivedAll, ReceivedTotal, Payloads, DataOf;
    var here := new Counters();
    var there := new Counters();
    var wire := SendLoop(ch, c, queue, here);
    Exchange(ch, c, queue);
    ghost var events;
    passed, events := ReceiveLoop(ch, c, wire, there);
    WireNeverExceeds(ch, c, queue);
    sent := Stat(here.original, here.wire, here.bytes);
    received := Stat(there.original, there.wire, there.bytes);
  }
}
