/** Routing-socket messages: layout of struct rt_msghdr on macOS, the message builder, and
    the walk over the records of one read. */
module RouteMessage {
  import opened Bits
  import opened Wrappers

  type int32 = x: int | -0x8000_0000 <= x < 0x8000_0000

  const RTM_VERSION: byte := 5
  const RTM_ADD: byte := 1
  const RTM_DELETE: byte := 2
  const AF_INET: byte := 2
  const AF_INET6: byte := 30
  const RTF_UP: int := 0x1
  const RTF_GATEWAY: int := 0x2
  const RTF_HOST: int := 0x4
  const RTF_STATIC: int := 0x800
  const RTA_DST: int := 0x1
  const RTA_GATEWAY: int := 0x2
  const RTA_NETMASK: int := 0x4
  const HEADER_SIZE: nat := 92

  // ----- little-endian fields

  function Le16(v: nat): (b: seq<byte>)
    requires v < 0x1_0000
    ensures |b| == 2
  {
    [v % 0x100, v / 0x100]
  }

  function FromLe16(b: seq<byte>): (v: nat)
    requires |b| == 2
  {
    b[0] as int + 0x100 * (b[1] as int)
  }

  /** Two's complement. */
  function Le32(v: int32): (b: seq<byte>)
    ensures |b| == 4
  {
    var u: int := if v < 0 then v as int + 0x1_0000_0000 else v as int;
    Le16(u % 0x1_0000) + Le16(u / 0x1_0000)
  }

  function FromLe32(b: seq<byte>): (v: int32)
    requires |b| == 4
  {
    var u := FromLe16(b[..2]) + 0x1_0000 * FromLe16(b[2..]);
    if u >= 0x8000_0000 then u - 0x1_0000_0000 else u
  }

  lemma Le16RoundTrip(v: nat)
    requires v < 0x1_0000
    ensures FromLe16(Le16(v)) == v
  {
  }

  lemma Le32RoundTrip(v: int32)
    ensures FromLe32(Le32(v)) == v
  {
    var u: int := if v < 0 then v as int + 0x1_0000_0000 else v as int;
    var lo, hi := Le16(u % 0x1_0000), Le16(u / 0x1_0000);
    assert (lo + hi)[..2] == lo && (lo + hi)[2..] == hi;
    Le16RoundTrip(u % 0x1_0000);
    Le16RoundTrip(u / 0x1_0000);
  }

  // ----- headers

  datatype Header = Header(msglen: nat, version: byte, kind: byte, index: nat, flags: int32,
                           addrs: int32, pid: int32, seqno: int32, errno: int32)

  predicate HeaderFits(h: Header) {
    h.msglen < 0x1_0000 && h.index < 0x1_0000
  }

  function Zeros(n: nat): (b: seq<byte>)
    ensures |b| == n
  {
    seq(n, _ => 0)
  }

  /** The use, inits and metrics fields are left zero. */
  function EncodeHeader(h: Header): (b: seq<byte>)
    requires HeaderFits(h)
    ensures |b| == HEADER_SIZE
  {
    Le16(h.msglen) + [h.version, h.kind] + Le16(h.index) + Zeros(2) + Le32(h.flags) + Le32(h.addrs) +
    Le32(h.pid) + Le32(h.seqno) + Le32(h.errno) + Zeros(64)
  }

  function DecodeHeader(b: seq<byte>): (r: Option<Header>)
    ensures r.Some? ==> HeaderFits(r.value)
  {
    if |b| < HEADER_SIZE then None
    else Some(Header(FromLe16(b[0..2]), b[2], b[3], FromLe16(b[4..6]), FromLe32(b[8..12]),
                     FromLe32(b[12..16]), FromLe32(b[16..20]), FromLe32(b[20..24]), FromLe32(b[24..28])))
  }

  lemma HeaderRoundTrip(h: Header, rest: seq<byte>)
    requires HeaderFits(h)
    ensures DecodeHeader(EncodeHeader(h) + rest) == Some(h)
  {
    hide Le16, Le32, FromLe16, FromLe32, Zeros;
    var b := EncodeHeader(h) + rest;
    assert b[0..2] == Le16(h.msglen);
    assert b[2] == h.version && b[3] == h.kind;
    assert b[4..6] == Le16(h.index);
    assert b[8..12] == Le32(h.flags);
    assert b[12..16] == Le32(h.addrs);
    assert b[16..20] == Le32(h.pid);
    assert b[20..24] == Le32(h.seqno);
    assert b[24..28] == Le32(h.errno);
    Le16RoundTrip(h.msglen);
    Le16RoundTrip(h.index);
    Le32RoundTrip(h.flags);
    Le32RoundTrip(h.addrs);
    Le32RoundTrip(h.pid);
    Le32RoundTrip(h.seqno);
    Le32RoundTrip(h.errno);
  }

  // ----- addresses

  /** The four-byte form of an address that has one. */
  function To4(ip: seq<byte>): Option<seq<byte>> {
    if |ip| == 4 then Some(ip)
    else if |ip| == 16 && ip[..12] == Zeros(10) + [0xff, 0xff] then Some(ip[12..])
    else None
  }

  /** One form for each address: two addresses are equal when these are. */
  function Canonical(ip: seq<byte>): seq<byte> {
    match To4(ip) case Some(v4) => v4 case None => ip
  }

  datatype Family = Inet | Inet6

  function FamilyOf(ip: seq<byte>): Option<Family> {
    if To4(ip).Some? then Some(Inet) else if |ip| == 16 then Some(Inet6) else None
  }

  /** struct sockaddr_in or sockaddr_in6 around an address or a mask. */
  function Sockaddr(family: Family, body: seq<byte>): (b: seq<byte>)
    requires |body| == if family.Inet? then 4 else 16
    ensures |b| == if family.Inet? then 16 else 28
  {
    match family
    case Inet => [16, AF_INET, 0, 0] + body + Zeros(8)
    case Inet6 => [28, AF_INET6, 0, 0] + Zeros(4) + body + Zeros(4)
  }

  /** Sockaddrs are padded to four bytes. */
  function Padded(b: seq<byte>): (r: seq<byte>)
    ensures |r| % 4 == 0 && |b| <= |r| < |b| + 4 && r[..|b|] == b
  {
    b + Zeros((4 - |b| % 4) % 4)
  }

  function LeadingOnes(b: seq<bool>): (n: nat)
    ensures n <= |b|
  {
    if b == [] || !b[0] then 0 else 1 + LeadingOnes(b[1..])
  }

  /** The prefix length of a contiguous mask of 32 or 128 bits. */
  function MaskOnes(mask: seq<byte>): (r: Option<nat>)
    ensures r.Some? ==> r.value <= 8 * |mask|
  {
    var bits := Unpack(mask);
    var ones := LeadingOnes(bits);
    if (|mask| == 4 || |mask| == 16) && forall i :: ones <= i < |bits| ==> !bits[i] then Some(ones)
    else None
  }

  /** No mask and a mask of all ones both mean a host route. */
  function EffectiveMask(mask: Option<seq<byte>>): (r: Option<seq<byte>>) {
    match mask
    case None => None
    case Some(m) => if MaskOnes(m) == Some(8 * |m|) then None else Some(m)
  }

  // ----- requests

  predicate Buildable(ifidx: int, dst: seq<byte>, mask: Option<seq<byte>>, gateway: seq<byte>) {
    && ifidx > 0
    && FamilyOf(dst).Some? && FamilyOf(gateway) == FamilyOf(dst)
    && (mask.Some? ==> MaskOnes(mask.value).Some?)
    && (EffectiveMask(mask).Some? ==>
          |EffectiveMask(mask).value| == if FamilyOf(dst).value.Inet? then 4 else 16)
  }

  /** The address part of a request: destination, gateway, and the mask of a network route. */
  function Addresses(dst: seq<byte>, mask: Option<seq<byte>>, gateway: seq<byte>): (b: seq<byte>)
    requires Buildable(1, dst, mask, gateway)
    ensures |b| <= 84
  {
    var family := FamilyOf(dst).value;
    Padded(Sockaddr(family, Canonical(dst))) + Padded(Sockaddr(family, Canonical(gateway))) +
    match EffectiveMask(mask) case None => [] case Some(m) => Padded(Sockaddr(family, m))
  }

  /** The message for one route, or nothing when the route is malformed. The interface index
      is truncated to sixteen bits. */
  function BuildRtMsg(kind: byte, seqno: int32, ifidx: int, dst: seq<byte>, mask: Option<seq<byte>>,
                      gateway: seq<byte>, pid: int32): (r: Option<seq<byte>>)
    ensures r.Some? <==> Buildable(ifidx, dst, mask, gateway)
    ensures r.Some? ==> HEADER_SIZE <= |r.value| <= 176
  {
    if !Buildable(ifidx, dst, mask, gateway) then None
    else
      var host := EffectiveMask(mask).None?;
      var flags := RTF_UP + RTF_GATEWAY + RTF_STATIC + if host then RTF_HOST else 0;
      var addrs := RTA_DST + RTA_GATEWAY + if host then 0 else RTA_NETMASK;
      var body := Addresses(dst, mask, gateway);
      Some(EncodeHeader(Header(HEADER_SIZE + |body|, RTM_VERSION, kind, ifidx % 0x1_0000, flags, addrs,
                               pid, seqno, 0)) + body)
  }

  /** The number v in two bytes of b, the least significant first. */
  predicate Holds16(b: seq<byte>, at: nat, v: int) {
    at + 2 <= |b| && b[at] as int + 256 * (b[at + 1] as int) == v
  }

  /** The number v in four bytes of b, the least significant first, in two's complement. */
  predicate Holds32(b: seq<byte>, at: nat, v: int) {
    && at + 4 <= |b|
    && b[at] as int + 256 * (b[at + 1] as int) + 65536 * (b[at + 2] as int) + 16777216 * (b[at + 3] as int) ==
       if v < 0 then v + 0x1_0000_0000 else v
  }

  lemma Le32Holds(b: seq<byte>, at: nat, v: int32)
    requires at + 4 <= |b| && b[at..at + 4] == Le32(v)
    ensures Holds32(b, at, v)
  {
    var x := Le32(v);
    assert b[at] == b[at..at + 4][0] && b[at + 1] == b[at..at + 4][1];
    assert b[at + 2] == b[at..at + 4][2] && b[at + 3] == b[at..at + 4][3];
  }

  /** The bytes of a header at their offsets. */
  lemma HeaderBytes(h: Header, rest: seq<byte>)
    requires HeaderFits(h)
    ensures var b := EncodeHeader(h) + rest;
            && Holds16(b, 0, h.msglen) && b[2] == h.version && b[3] == h.kind && Holds16(b, 4, h.index)
            && Holds32(b, 8, h.flags) && Holds32(b, 12, h.addrs) && Holds32(b, 16, h.pid)
            && Holds32(b, 20, h.seqno) && Holds32(b, 24, h.errno) && b[92..] == rest
  {
    hide Le32, Zeros, Holds32;
    var b := EncodeHeader(h) + rest;
    assert b[8..12] == Le32(h.flags) && b[12..16] == Le32(h.addrs) && b[16..20] == Le32(h.pid);
    assert b[20..24] == Le32(h.seqno) && b[24..28] == Le32(h.errno);
    Le32Holds(b, 8, h.flags);
    Le32Holds(b, 12, h.addrs);
    Le32Holds(b, 16, h.pid);
    Le32Holds(b, 20, h.seqno);
    Le32Holds(b, 24, h.errno);
  }

  /** A built message byte by byte: length, version 5, kind, sixteen bits of the interface index, the flags
      up, gateway and static, and host for a host route, the addresses that follow, our process, the
      sequence number, and the sockaddrs. */
  lemma MessageBytes(kind: byte, seqno: int32, ifidx: int, dst: seq<byte>, mask: Option<seq<byte>>,
                     gateway: seq<byte>, pid: int32)
    requires Buildable(ifidx, dst, mask, gateway)
    ensures var m := BuildRtMsg(kind, seqno, ifidx, dst, mask, gateway, pid).value;
            && Holds16(m, 0, |m|) && m[2] == 5 && m[3] == kind && Holds16(m, 4, ifidx % 0x1_0000)
            && Holds32(m, 8, if EffectiveMask(mask).None? then 0x807 else 0x803)
            && Holds32(m, 12, if EffectiveMask(mask).None? then 3 else 7)
            && Holds32(m, 16, pid) && Holds32(m, 20, seqno) && Holds32(m, 24, 0)
            && m[92..] == Addresses(dst, mask, gateway)
  {
    hide EncodeHeader, Addresses, FamilyOf, MaskOnes, Canonical, Holds16, Holds32;
    var host := EffectiveMask(mask).None?;
    var body := Addresses(dst, mask, gateway);
    var flags := RTF_UP + RTF_GATEWAY + RTF_STATIC + if host then RTF_HOST else 0;
    var addrs := RTA_DST + RTA_GATEWAY + if host then 0 else RTA_NETMASK;
    HeaderBytes(Header(HEADER_SIZE + |body|, RTM_VERSION, kind, ifidx % 0x1_0000, flags, addrs, pid, seqno, 0), body);
  }

  /** A sockaddr byte by byte: its length, its family, and the address. */
  lemma SockaddrBytes(x: seq<byte>)
    ensures |x| == 4 ==> Padded(Sockaddr(Inet, x)) == [16, 2, 0, 0] + x + [0, 0, 0, 0, 0, 0, 0, 0]
    ensures |x| == 16 ==> Padded(Sockaddr(Inet6, x)) == [28, 30, 0, 0, 0, 0, 0, 0] + x + [0, 0, 0, 0]
  {
    assert Zeros(8) == [0, 0, 0, 0, 0, 0, 0, 0] && Zeros(4) == [0, 0, 0, 0];
    if |x| == 4 { SockaddrHolds(Inet, x); }
    if |x| == 16 {
      SockaddrHolds(Inet6, x);
      assert [28, 30, 0, 0] + Zeros(4) == [28, 30, 0, 0, 0, 0, 0, 0];
    }
  }

  /** The sockaddrs of a message: destination, gateway, and the mask of a network route. */
  lemma AddressBytes(dst: seq<byte>, mask: Option<seq<byte>>, gateway: seq<byte>)
    requires Buildable(1, dst, mask, gateway)
    ensures var d, g := Canonical(dst), Canonical(gateway);
            var family := if |d| == 4 then Inet else Inet6;
            && |d| == |g| == AddressSize(family)
            && (EffectiveMask(mask).Some? ==> |EffectiveMask(mask).value| == |d|)
            && Addresses(dst, mask, gateway) ==
               Padded(Sockaddr(family, d)) + Padded(Sockaddr(family, g)) +
               match EffectiveMask(mask) case None => [] case Some(m) => Padded(Sockaddr(family, m))
  {
    hide MaskOnes, Padded, Sockaddr;
  }

  predicate OnesThenZeros(bits: seq<bool>, n: nat) {
    n <= |bits| && forall i :: 0 <= i < |bits| ==> (bits[i] <==> i < n)
  }

  /** The prefix length of a mask is n exactly when it is n one bits and then zero bits, 32 or 128 in all. */
  lemma MaskOnesIs(mask: seq<byte>, n: nat)
    ensures MaskOnes(mask) == Some(n) <==> (|mask| == 4 || |mask| == 16) && OnesThenZeros(Unpack(mask), n)
  {
    hide Unpack;
    var bits := Unpack(mask);
    var ones := LeadingOnes(bits);
    OnesLead(bits);
    if OnesThenZeros(bits, n) {
      assert ones < |bits| ==> !bits[ones];
      assert n < |bits| ==> !bits[n];
      assert ones == n;
    }
  }

  lemma {:induction false} OnesLead(b: seq<bool>)
    ensures forall i :: 0 <= i < LeadingOnes(b) ==> b[i]
    ensures LeadingOnes(b) < |b| ==> !b[LeadingOnes(b)]
  {
    if b != [] && b[0] {
      OnesLead(b[1..]);
      forall i | 0 <= i < LeadingOnes(b) ensures b[i] {
        if i > 0 { assert b[i] == b[1..][i - 1]; }
      }
    }
  }

  /** No mask and a mask of all ones mean a host route; any other mask is itself. */
  lemma HostMask(m: seq<byte>)
    requires |m| == 4 || |m| == 16
    ensures EffectiveMask(None) == None
    ensures EffectiveMask(Some(m)) ==
            if OnesThenZeros(Unpack(m), 8 * |m|) then None else Some(m)
  {
    hide Unpack, MaskOnes;
    MaskOnesIs(m, 8 * |m|);
  }

  /** A four-byte address is itself, and so is its sixteen-byte form. */
  lemma CanonicalForms(v4: seq<byte>, ip: seq<byte>)
    requires |v4| == 4
    ensures Canonical(v4) == v4 && Canonical([0, 0, 0, 0, 0, 0, 0, 0, 0, 0, 255, 255] + v4) == v4
    ensures |ip| != 4 && |ip| != 16 ==> Canonical(ip) == ip && FamilyOf(ip) == None
    ensures |ip| == 16 && ip[..12] != [0, 0, 0, 0, 0, 0, 0, 0, 0, 0, 255, 255] ==>
              Canonical(ip) == ip && FamilyOf(ip) == Some(Inet6)
  {
    var p: seq<byte> := [0, 0, 0, 0, 0, 0, 0, 0, 0, 0, 255, 255];
    assert Zeros(10) + [0xff, 0xff] == p;
    assert (p + v4)[..12] == p && (p + v4)[12..] == v4;
  }

  // ----- what the kernel reads in a request

  datatype Message = Message(kind: byte, seqno: int32, index: nat, dst: seq<byte>, mask: Option<seq<byte>>,
                             gateway: seq<byte>)

  /** The address inside the i-th of the sockaddrs laid end to end. */
  function AddressAt(body: seq<byte>, family: Family, i: nat): Option<seq<byte>> {
    match family
    case Inet => if 16 * i + 16 <= |body| then Some(body[16 * i + 4..16 * i + 8]) else None
    case Inet6 => if 28 * i + 28 <= |body| then Some(body[28 * i + 8..28 * i + 24]) else None
  }

  function ParseRtMsg(m: seq<byte>): Option<Message> {
    match DecodeHeader(m)
    case None => None
    case Some(h) =>
      var body := m[HEADER_SIZE..];
      if |body| < 2 then None
      else
        var family := if body[1] == AF_INET then Inet else Inet6;
        var dst, gateway, mask := AddressAt(body, family, 0), AddressAt(body, family, 1), AddressAt(body, family, 2);
        var hasMask := h.addrs % 8 >= RTA_NETMASK;
        if dst.None? || gateway.None? || (hasMask && mask.None?) then None
        else Some(Message(h.kind, h.seqno, h.index, dst.value, if hasMask then mask else None, gateway.value))
  }

  function AddressSize(family: Family): nat {
    if family.Inet? then 4 else 16
  }

  lemma SockaddrHolds(family: Family, x: seq<byte>)
    requires |x| == AddressSize(family)
    ensures Padded(Sockaddr(family, x)) == Sockaddr(family, x)
    ensures Sockaddr(family, x)[1] == if family.Inet? then AF_INET else AF_INET6
    ensures AddressAt(Sockaddr(family, x), family, 0) == Some(x)
  {
  }

  /** Sockaddrs before and behind do not disturb an address. */
  lemma AddressIn(family: Family, before: seq<byte>, x: seq<byte>, rest: seq<byte>, i: nat)
    requires |x| == AddressSize(family) && |before| == i * (if family.Inet? then 16 else 28)
    ensures AddressAt(before + Sockaddr(family, x) + rest, family, i) == Some(x)
  {
    hide Zeros;
    SockaddrHolds(family, x);
    var s := Sockaddr(family, x);
    var all := before + s + rest;
    assert forall j :: 0 <= j < |s| ==> all[|before| + j] == s[j];
    match family
    case Inet => assert all[16 * i + 4..16 * i + 8] == s[4..8];
    case Inet6 => assert all[28 * i + 8..28 * i + 24] == s[8..24];
  }

  lemma AddressesHold(dst: seq<byte>, mask: Option<seq<byte>>, gateway: seq<byte>)
    requires Buildable(1, dst, mask, gateway)
    ensures var family, body := FamilyOf(dst).value, Addresses(dst, mask, gateway);
            && |body| >= 2 && (body[1] == AF_INET <==> family.Inet?)
            && AddressAt(body, family, 0) == Some(Canonical(dst))
            && AddressAt(body, family, 1) == Some(Canonical(gateway))
            && (EffectiveMask(mask).Some? ==> AddressAt(body, family, 2) == EffectiveMask(mask))
  {
    hide MaskOnes, Sockaddr, AddressAt, Padded, Zeros;
    var family, body := FamilyOf(dst).value, Addresses(dst, mask, gateway);
    var d, g := Canonical(dst), Canonical(gateway);
    var sd, sg := Sockaddr(family, d), Sockaddr(family, g);
    SockaddrHolds(family, d);
    SockaddrHolds(family, g);
    match EffectiveMask(mask) {
      case None =>
        assert body == [] + sd + sg && body == sd + sg + [];
        AddressIn(family, [], d, sg, 0);
        AddressIn(family, sd, g, [], 1);
      case Some(m) =>
        SockaddrHolds(family, m);
        var sm := Sockaddr(family, m);
        assert body == [] + sd + (sg + sm) && body == sd + sg + sm && body == (sd + sg) + sm + [];
        AddressIn(family, [], d, sg + sm, 0);
        AddressIn(family, sd, g, sm, 1);
        AddressIn(family, sd + sg, m, [], 2);
    }
    assert body[1] == sd[1];
  }

  /** What the kernel reads in a built message is the request: kind, number, destination and effective
      mask, gateway, and the interface index in sixteen bits. */
  lemma ParseBuilt(kind: byte, seqno: int32, ifidx: int, dst: seq<byte>, mask: Option<seq<byte>>,
                   gateway: seq<byte>, pid: int32)
    requires Buildable(ifidx, dst, mask, gateway)
    ensures ParseRtMsg(BuildRtMsg(kind, seqno, ifidx, dst, mask, gateway, pid).value) ==
            Some(Message(kind, seqno, ifidx % 0x1_0000, Canonical(dst), EffectiveMask(mask), Canonical(gateway)))
  {
    hide EncodeHeader, DecodeHeader, Addresses, FamilyOf, MaskOnes, AddressAt, Canonical;
    var host := EffectiveMask(mask).None?;
    var flags := RTF_UP + RTF_GATEWAY + RTF_STATIC + if host then RTF_HOST else 0;
    var addrs := RTA_DST + RTA_GATEWAY + if host then 0 else RTA_NETMASK;
    var body := Addresses(dst, mask, gateway);
    var h := Header(HEADER_SIZE + |body|, RTM_VERSION, kind, ifidx % 0x1_0000, flags, addrs, pid, seqno, 0);
    HeaderRoundTrip(h, body);
    AddressesHold(dst, mask, gateway);
    var m := EncodeHeader(h) + body;
    assert m[HEADER_SIZE..] == body;
  }

  // ----- records of one read

  /** A message whose header gives its own length. */
  predicate WellFormed(m: seq<byte>) {
    DecodeHeader(m).Some? && DecodeHeader(m).value.msglen == |m|
  }

  /** The headers met by walking a buffer; the walk stops at the first record that is too
      short or does not fit. */
  function Records(buf: seq<byte>): seq<Header>
    decreases |buf|
  {
    match DecodeHeader(buf)
    case None => []
    case Some(h) =>
      if h.msglen < HEADER_SIZE || h.msglen > |buf| then []
      else [h] + Records(buf[h.msglen..])
  }

  function Concat(ms: seq<seq<byte>>): seq<byte> {
    if ms == [] then [] else ms[0] + Concat(ms[1..])
  }

  lemma BuiltIsWellFormed(kind: byte, seqno: int32, ifidx: int, dst: seq<byte>, mask: Option<seq<byte>>,
                          gateway: seq<byte>, pid: int32)
    requires Buildable(ifidx, dst, mask, gateway)
    ensures var m := BuildRtMsg(kind, seqno, ifidx, dst, mask, gateway, pid).value;
            && WellFormed(m) && |m| >= HEADER_SIZE
            && DecodeHeader(m).value.seqno == seqno && DecodeHeader(m).value.kind == kind
  {
    hide EncodeHeader, DecodeHeader, Addresses, FamilyOf, MaskOnes;
    var host := EffectiveMask(mask).None?;
    var flags := RTF_UP + RTF_GATEWAY + RTF_STATIC + if host then RTF_HOST else 0;
    var addrs := RTA_DST + RTA_GATEWAY + if host then 0 else RTA_NETMASK;
    var body := Addresses(dst, mask, gateway);
    HeaderRoundTrip(Header(HEADER_SIZE + |body|, RTM_VERSION, kind, ifidx % 0x1_0000, flags, addrs,
                           pid, seqno, 0), body);
  }

  /** Decoding looks at the header only. */
  lemma DecodePrefix(m: seq<byte>, rest: seq<byte>)
    requires |m| >= HEADER_SIZE
    ensures DecodeHeader(m + rest) == DecodeHeader(m)
  {
    hide FromLe16, FromLe32;
    var b := m + rest;
    assert b[0..2] == m[0..2] && b[4..6] == m[4..6] && b[8..12] == m[8..12] && b[12..16] == m[12..16];
    assert b[16..20] == m[16..20] && b[20..24] == m[20..24] && b[24..28] == m[24..28];
  }

  /** A buffer whose start is not a whole record: shorter than a header, or its header declares less than
      itself or more than there is. */
  predicate Unreadable(buf: seq<byte>) {
    |buf| < 92 || FromLe16(buf[0..2]) < 92 || FromLe16(buf[0..2]) > |buf|
  }

  /** Walking messages laid end to end visits each exactly once, in order, and stops at what is not one. */
  lemma {:induction false} WalkVisitsEach(ms: seq<seq<byte>>, tail: seq<byte>)
    requires forall i :: 0 <= i < |ms| ==> WellFormed(ms[i]) && |ms[i]| >= HEADER_SIZE
    requires Unreadable(tail)
    ensures |Records(Concat(ms) + tail)| == |ms|
    ensures forall i :: 0 <= i < |ms| ==> Some(Records(Concat(ms) + tail)[i]) == DecodeHeader(ms[i])
  {
    hide DecodeHeader, Unreadable;
    if ms != [] {
      var m, rest := ms[0], Concat(ms[1..]) + tail;
      DecodePrefix(m, rest);
      assert Concat(ms) + tail == m + rest && (m + rest)[|m|..] == rest;
      WalkVisitsEach(ms[1..], tail);
      var rs := Records(Concat(ms) + tail);
      assert rs == [DecodeHeader(m).value] + Records(rest);
      forall i | 0 <= i < |ms| ensures Some(rs[i]) == DecodeHeader(ms[i]) {
        if i > 0 { assert ms[i] == ms[1..][i - 1] && rs[i] == Records(rest)[i - 1]; }
      }
    } else {
      assert Concat(ms) + tail == tail;
      NoRecord(tail);
    }
  }

  lemma NoRecord(tail: seq<byte>)
    requires Unreadable(tail)
    ensures Records(tail) == []
  {
  }
}
