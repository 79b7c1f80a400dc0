/** Data frames of both channels: the eight-byte CSTP header over TLS (section 2.2 of
    draft-mavrogiannopoulos-openconnect-03) and the one-byte header over DTLS (section 2.3 of
    draft-mavrogiannopoulos-openconnect-02), with optional compression and statistics. */
module Frames {
  import opened Bits
  import opened Wrappers
  import opened LzsFormat
  import opened LzsParse
  import LzsCompress

  const BUFFER_SIZE: nat := 2048
  const COMPRESS_SIZE: nat := 4096
  const DECOMPRESS_SIZE: nat := 16384

  const DATA: byte := 0
  const DPD_REQ: byte := 3
  const DPD_RESP: byte := 4
  const DISCONNECT: byte := 5
  const COMPRESSED: byte := 8

  datatype Channel = Tls | Dtls
  {
    function Overhead(): nat {
      match this case Tls => 8 case Dtls => 1
    }
  }

  /** Negotiated compression; deflate is recognised and not implemented. */
  datatype Compression = CompNone | CompLZS | CompDeflate

  // ----- what goes on the wire

  function CompressedBy(c: Compression, data: seq<byte>, room: nat): Option<seq<byte>> {
    if c.CompLZS? && |data| <= LzsCompress.MAX_INPUT && |Compressed(data)| <= room then Some(Compressed(data))
    else None
  }

  function DecompressedBy(c: Compression, wire: seq<byte>, room: nat): Option<seq<byte>> {
    if !c.CompLZS? then None
    else
      match Decode(Unpack(wire), 0, [], room)
      case Ok(d) => Some(d)
      case Fail(_) => None
  }

  datatype Body = Body(kind: byte, wire: seq<byte>)

  /** A data packet is sent compressed only if that makes it smaller. */
  function BodyOf(c: Compression, data: seq<byte>): (b: Body)
    ensures |b.wire| <= |data|
  {
    match CompressedBy(c, data, COMPRESS_SIZE)
    case None => Body(DATA, data)
    case Some(d) => if |d| < |data| then Body(COMPRESSED, d) else Body(DATA, data)
  }

  function Frame(ch: Channel, kind: byte, wire: seq<byte>): (f: seq<byte>)
    requires |wire| < 0x1_0000
    ensures |f| == ch.Overhead() + |wire|
  {
    match ch
    case Tls => [0x53, 0x54, 0x46, 0x01, |wire| / 0x100, |wire| % 0x100, kind, 0] + wire
    case Dtls => [kind] + wire
  }

  /** A packet from the tunnel device or, with another type, a control message without data. */
  datatype Packet = Packet(kind: byte, data: seq<byte>)

  predicate Fits(ch: Channel, p: Packet) {
    p.kind == DATA ==> |p.data| + ch.Overhead() <= BUFFER_SIZE
  }

  function Sent(ch: Channel, c: Compression, p: Packet): seq<byte>
    requires Fits(ch, p)
  {
    if p.kind == DATA then
      var b := BodyOf(c, p.data);
      Frame(ch, b.kind, b.wire)
    else Frame(ch, p.kind, [])
  }

  // ----- what a frame means to the receiver

  datatype Event = Deliver(data: seq<byte>) | Reply | Ignore | Stop

  /** One read gives one complete frame. */
  predicate Complete(ch: Channel, f: seq<byte>) {
    ch.Overhead() <= |f| <= BUFFER_SIZE
    && (ch.Tls? ==> 8 + f[4] as int * 0x100 + f[5] as int == |f|)
  }

  function KindOf(ch: Channel, f: seq<byte>): byte
    requires Complete(ch, f)
  {
    match ch case Tls => f[6] case Dtls => f[0]
  }

  function WireOf(ch: Channel, f: seq<byte>): seq<byte>
    requires Complete(ch, f)
  {
    f[ch.Overhead()..]
  }

  function Received(ch: Channel, c: Compression, f: seq<byte>): Event
    requires Complete(ch, f)
  {
    var kind, wire := KindOf(ch, f), WireOf(ch, f);
    if kind == DATA then Deliver(wire)
    else if kind == COMPRESSED then
      match DecompressedBy(c, wire, DECOMPRESS_SIZE)
      case Some(d) => Deliver(d)
      case None => Stop
    else if kind == DPD_REQ then Reply
    else if kind == DISCONNECT && ch.Dtls? then Stop
    else Ignore
  }

  /** A frame byte by byte. */
  lemma FrameBytes(ch: Channel, kind: byte, wire: seq<byte>)
    requires |wire| < 0x1_0000
    ensures var f := Frame(ch, kind, wire);
            match ch
            case Tls =>
              && |f| == |wire| + 8 && f[0] == 0x53 && f[1] == 0x54 && f[2] == 0x46 && f[3] == 0x01
              && 256 * (f[4] as int) + f[5] as int == |wire| && f[6] == kind && f[7] == 0 && f[8..] == wire
            case Dtls => |f| == |wire| + 1 && f[0] == kind && f[1..] == wire
  {
  }

  /** A packet of at most 2048 bytes is sent compressed, as type 8, exactly when LZS was negotiated and makes
      it smaller. */
  lemma BodyExactly(c: Compression, data: seq<byte>)
    requires |data| <= 2048
    ensures BodyOf(c, data) ==
            if c.CompLZS? && |Compressed(data)| < |data| then Body(8, Compressed(data)) else Body(0, data)
  {
    hide Compressed;
    SizeBound(data);
  }

  /** What each type of frame means: 0 data, 3 a request to answer, 8 compressed data, which ends the channel
      if it is not LZS or does not decompress; 5 ends a DTLS channel; anything else is passed over. */
  lemma ReceivedKinds(ch: Channel, c: Compression, f: seq<byte>)
    requires Complete(ch, f)
    ensures ch.Tls? ==> |f| >= 8
    ensures ch.Dtls? ==> |f| >= 1
    ensures var kind, wire := if ch.Tls? then f[6] else f[0], if ch.Tls? then f[8..] else f[1..];
            && (kind == 0 ==> Received(ch, c, f) == Deliver(wire))
            && (kind == 3 ==> Received(ch, c, f) == Reply)
            && (kind == 5 ==> Received(ch, c, f) == if ch.Dtls? then Stop else Ignore)
            && (kind == 8 ==>
                  Received(ch, c, f) == match Decode(Unpack(wire), 0, [], 16384)
                                        case Ok(d) => if c.CompLZS? then Deliver(d) else Stop
                                        case Fail(_) => Stop)
            && (kind !in {0, 3, 5, 8} ==> Received(ch, c, f) == Ignore)
  {
    hide Decode, Unpack;
  }

  lemma FrameParts(ch: Channel, kind: byte, wire: seq<byte>)
    requires |wire| + ch.Overhead() <= BUFFER_SIZE
    ensures Complete(ch, Frame(ch, kind, wire))
    ensures KindOf(ch, Frame(ch, kind, wire)) == kind && WireOf(ch, Frame(ch, kind, wire)) == wire
  {
  }

  /** A data packet that fits arrives as it was sent, whichever compression was negotiated. */
  lemma DataArrives(ch: Channel, c: Compression, data: seq<byte>)
    requires Fits(ch, Packet(DATA, data))
    ensures Complete(ch, Sent(ch, c, Packet(DATA, data)))
    ensures Received(ch, c, Sent(ch, c, Packet(DATA, data))) == Deliver(data)
  {
    hide Compressed, Decode, Unpack, Frame;
    var b := BodyOf(c, data);
    FrameParts(ch, b.kind, b.wire);
    if b.kind == COMPRESSED {
      RoundTrip(data, DECOMPRESS_SIZE);
    }
  }

  // ----- statistics

  datatype Stat = Stat(original: nat, wire: nat, bytes: nat)
  {
    function Plus(s: Stat): Stat {
      Stat(original + s.original, wire + s.wire, bytes + s.bytes)
    }
  }

  /** Payload bytes before and after compression are counted only when compression was
      negotiated; all frame bytes always. */
  function SentStat(ch: Channel, c: Compression, p: Packet): Stat
    requires Fits(ch, p)
  {
    var bytes := |Sent(ch, c, p)|;
    if p.kind == DATA && c != CompNone then Stat(|p.data|, |BodyOf(c, p.data).wire|, bytes) else Stat(0, 0, bytes)
  }

  function ReceivedStat(ch: Channel, c: Compression, f: seq<byte>): Stat
    requires Complete(ch, f)
  {
    match Received(ch, c, f)
    case Deliver(d) => if c != CompNone then Stat(|d|, |WireOf(ch, f)|, |f|) else Stat(0, 0, |f|)
    case Stop => Stat(0, 0, 0)
    case _ => Stat(0, 0, |f|)
  }

  // ----- runs

  predicate AllFit(ch: Channel, ps: seq<Packet>) {
    forall i :: 0 <= i < |ps| ==> Fits(ch, ps[i])
  }

  function SentAll(ch: Channel, c: Compression, ps: seq<Packet>): (fs: seq<seq<byte>>)
    requires AllFit(ch, ps)
    ensures |fs| == |ps|
  {
    if ps == [] then [] else SentAll(ch, c, ps[..|ps| - 1]) + [Sent(ch, c, ps[|ps| - 1])]
  }

  function SentTotal(ch: Channel, c: Compression, ps: seq<Packet>): Stat
    requires AllFit(ch, ps)
  {
    if ps == [] then Stat(0, 0, 0)
    else SentTotal(ch, c, ps[..|ps| - 1]).Plus(SentStat(ch, c, ps[|ps| - 1]))
  }

  predicate AllComplete(ch: Channel, fs: seq<seq<byte>>) {
    forall i :: 0 <= i < |fs| ==> Complete(ch, fs[i])
  }

  /** The events of a run; a Stop ends it. */
  function ReceivedAll(ch: Channel, c: Compression, fs: seq<seq<byte>>): (es: seq<Event>)
    requires AllComplete(ch, fs)
    ensures |es| <= |fs|
  {
    if fs == [] then []
    else
      var n := |fs| - 1;
      var before := ReceivedAll(ch, c, fs[..n]);
      if Stopped(before) then before else before + [Received(ch, c, fs[n])]
  }

  predicate Stopped(es: seq<Event>) {
    es != [] && es[|es| - 1].Stop?
  }

  function ReceivedTotal(ch: Channel, c: Compression, fs: seq<seq<byte>>): Stat
    requires AllComplete(ch, fs)
  {
    if fs == [] then Stat(0, 0, 0)
    else
      var n := |fs| - 1;
      var before := ReceivedTotal(ch, c, fs[..n]);
      if Stopped(ReceivedAll(ch, c, fs[..n])) then before
      else before.Plus(ReceivedStat(ch, c, fs[n]))
  }

  function Payloads(es: seq<Event>): seq<seq<byte>> {
    if es == [] then []
    else Payloads(es[..|es| - 1]) + match es[|es| - 1] case Deliver(d) => [d] case _ => []
  }

  function DataOf(ps: seq<Packet>): seq<seq<byte>> {
    if ps == [] then []
    else DataOf(ps[..|ps| - 1]) + if ps[|ps| - 1].kind == DATA then [ps[|ps| - 1].data] else []
  }

  /** Control packets the client sends: dead-peer detection requests and answers. */
  predicate Ordinary(ps: seq<Packet>) {
    forall i :: 0 <= i < |ps| ==> ps[i].kind in {DATA, DPD_REQ, DPD_RESP}
  }

  /** A lossless exchange delivers exactly the data packets, in order, and the receiver's counters
      end equal to the sender's. */
  lemma {:induction false} Exchange(ch: Channel, c: Compression, ps: seq<Packet>)
    requires AllFit(ch, ps) && Ordinary(ps)
    ensures AllComplete(ch, SentAll(ch, c, ps))
    ensures !Stopped(ReceivedAll(ch, c, SentAll(ch, c, ps)))
    ensures Payloads(ReceivedAll(ch, c, SentAll(ch, c, ps))) == DataOf(ps)
    ensures ReceivedTotal(ch, c, SentAll(ch, c, ps)) == SentTotal(ch, c, ps)
  {
    hide Sent, Received, SentStat, ReceivedStat, Complete;
    if ps != [] {
      var n := |ps| - 1;
      var p, fs := ps[n], SentAll(ch, c, ps);
      Exchange(ch, c, ps[..n]);
      assert fs[..n] == SentAll(ch, c, ps[..n]) && fs[n] == Sent(ch, c, p);
      OneExchange(ch, c, p);
      ReceiveOneMore(ch, c, fs);
    }
  }

  lemma ReceiveOneMore(ch: Channel, c: Compression, fs: seq<seq<byte>>)
    requires fs != [] && AllComplete(ch, fs) && !Stopped(ReceivedAll(ch, c, fs[..|fs| - 1]))
    ensures var es, e := ReceivedAll(ch, c, fs[..|fs| - 1]), Received(ch, c, fs[|fs| - 1]);
            && ReceivedAll(ch, c, fs) == es + [e]
            && Payloads(ReceivedAll(ch, c, fs)) == Payloads(es) + match e case Deliver(d) => [d] case _ => []
  {
    hide Received, Complete;
    var es, e := ReceivedAll(ch, c, fs[..|fs| - 1]), Received(ch, c, fs[|fs| - 1]);
    assert (es + [e])[..|es|] == es;
  }

  lemma OneExchange(ch: Channel, c: Compression, p: Packet)
    requires Fits(ch, p) && p.kind in {DATA, DPD_REQ, DPD_RESP}
    ensures Complete(ch, Sent(ch, c, p))
    ensures Received(ch, c, Sent(ch, c, p)) ==
            if p.kind == DATA then Deliver(p.data) else if p.kind == DPD_REQ then Reply else Ignore
    ensures ReceivedStat(ch, c, Sent(ch, c, p)) == SentStat(ch, c, p)
  {
    hide Compressed, Decode, Unpack, Frame;
    if p.kind == DATA {
      assert p == Packet(DATA, p.data);
      DataArrives(ch, c, p.data);
      var b := BodyOf(c, p.data);
      FrameParts(ch, b.kind, b.wire);
    } else {
      FrameParts(ch, p.kind, []);
    }
  }

  function TotalLength(xs: seq<seq<byte>>): nat {
    if xs == [] then 0 else TotalLength(xs[..|xs| - 1]) + |xs[|xs| - 1]|
  }

  /** What the counters count: all bytes of the frames, and, if compression was negotiated, the bytes of the
      data packets before it and those of the frames without their headers. */
  lemma {:induction false} CountersCount(ch: Channel, c: Compression, ps: seq<Packet>)
    requires AllFit(ch, ps)
    ensures var t := SentTotal(ch, c, ps);
            && t.bytes == TotalLength(SentAll(ch, c, ps))
            && t.original == (if c == CompNone then 0 else TotalLength(DataOf(ps)))
            && t.wire == if c == CompNone then 0
                         else TotalLength(SentAll(ch, c, ps)) - |ps| * (if ch.Tls? then 8 else 1)
  {
    hide Frame, BodyOf;
    if ps != [] {
      var n := |ps| - 1;
      CountersCount(ch, c, ps[..n]);
      var fs := SentAll(ch, c, ps);
      assert fs[..n] == SentAll(ch, c, ps[..n]);
      var ds, before := DataOf(ps), DataOf(ps[..n]);
      assert ps[n].kind == DATA ==> ds[..|before|] == before;
      assert ps[n].kind != DATA ==> ds == before;
    }
  }

  /** Compression never makes the sent total grow. */
  lemma {:induction false} WireNeverExceeds(ch: Channel, c: Compression, ps: seq<Packet>)
    requires AllFit(ch, ps)
    ensures SentTotal(ch, c, ps).wire <= SentTotal(ch, c, ps).original
  {
    hide Sent, BodyOf;
    if ps != [] { WireNeverExceeds(ch, c, ps[..|ps| - 1]); }
  }
}
