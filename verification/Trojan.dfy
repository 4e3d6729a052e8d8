/** UDP packets inside a Trojan stream (boltconn/src/transport/trojan.rs), with the address format
    of section 5 of RFC 1928.  A domain name is the byte string that travels; its conversion to
    text is not modelled.  The byte order of the machine is a parameter: the source writes the
    separator in native order. */
module Trojan {
  import opened Common

  type U16 = n: nat | n < 65536

  type Octets4 = b: Bytes | |b| == 4 witness [0, 0, 0, 0]

  type Octets16 = b: Bytes | |b| == 16 witness [0, 0, 0, 0, 0, 0, 0, 0, 0, 0, 0, 0, 0, 0, 0, 0]

  datatype Addr =
    | V4(ip: Octets4, port: U16)
    | Domain(name: Bytes, port: U16)
    | V6(ip6: Octets16, port: U16, flow: nat, scope: nat)

  datatype Packet = Packet(addr: Addr, payload: Bytes)

  function BigEndian(n: U16): Bytes { [n / 256, n % 256] }

  function FromBigEndian(hi: Byte, lo: Byte): U16 { hi * 256 + lo }

  /** `CRLF.to_ne_bytes()` */
  function Separator(littleEndian: bool): Bytes {
    if littleEndian then [0x0A, 0x0D] else [0x0D, 0x0A]
  }

  // ---------------------------------------------------------------- sending

  /** The bytes of an address; the length of a domain name is cut to one byte. */
  function AddrBytes(a: Addr): Bytes {
    match a
    case V4(ip, port) => [1] + ip + BigEndian(port)
    case Domain(name, port) => [3, |name| % 256] + name + BigEndian(port)
    case V6(ip, port, _, _) => [4] + ip + BigEndian(port)
  }

  /** A whole frame; the length of the payload is cut to two bytes. */
  function Frame(p: Packet, littleEndian: bool): Bytes {
    AddrBytes(p.addr) + BigEndian(|p.payload| % 65536) + Separator(littleEndian) + p.payload
  }

  /** `TrojanAddr::len` */
  function AddrLen(a: Addr): (n: nat)
    ensures n == |AddrBytes(a)|
  {
    1 + (match a
         case V4(_, _) => 4
         case Domain(name, _) => |name| + 1
         case V6(_, _, _, _) => 16) + 2
  }

  /** `TrojanAddr::extend_data` */
  method ExtendData(a: Addr, data: Bytes) returns (out: Bytes)
    ensures out == data + AddrBytes(a)
  {
    out := data;
    match a
    case V4(ip, port) =>
      out := out + [0x01];
      out := out + ip;
      out := out + BigEndian(port);
    case Domain(name, port) =>
      out := out + [0x03];
      out := out + [|name| % 256];
      out := out + name;
      out := out + BigEndian(port);
    case V6(ip, port, _, _) =>
      out := out + [0x04];
      out := out + ip;
      out := out + BigEndian(port);
  }

  /** The bytes of a frame, by their places: the address type, the address, the port and the length
      of the payload with the high byte first, the separator in native order, and the payload. */
  predicate OnTheWire(buf: Bytes, dest: Addr, data: Bytes, littleEndian: bool) {
    var n := |buf| - |data|;
    && n >= 8 && buf[n..] == data
    && buf[n - 2..n] == (if littleEndian then [10, 13] else [13, 10])
    && buf[n - 4] == |data| / 256 % 256 && buf[n - 3] == |data| % 256
    && buf[n - 6] == dest.port / 256 && buf[n - 5] == dest.port % 256
    && match dest
       case V4(ip, _) => n == 11 && buf[0] == 1 && buf[1..5] == ip
       case Domain(name, _) => n == 8 + |name| && buf[0] == 3 && buf[1] == |name| % 256 && buf[2..2 + |name|] == name
       case V6(ip, _, _, _) => n == 23 && buf[0] == 4 && buf[1..17] == ip
  }

  lemma TailOnTheWire(addr: Bytes, port: U16, data: Bytes, littleEndian: bool)
    ensures var buf := addr + BigEndian(port) + BigEndian(|data| % 65536) + Separator(littleEndian) + data;
            var n := |buf| - |data|;
            && n == |addr| + 6 && buf[n..] == data && buf[..|addr|] == addr
            && buf[n - 2..n] == (if littleEndian then [10, 13] else [13, 10])
            && buf[n - 4] == |data| / 256 % 256 && buf[n - 3] == |data| % 256
            && buf[n - 6] == port / 256 && buf[n - 5] == port % 256
  {
    HighByte(|data|);
  }

  lemma HighByte(n: nat)
    ensures n % 65536 / 256 == n / 256 % 256 && n % 65536 % 256 == n % 256
  {
  }

  /** An address behind its tag is where it should be. */
  lemma HeadOnTheWire(tag: Bytes, field: Bytes, buf: Bytes)
    requires |buf| >= |tag| + |field| && buf[..|tag| + |field|] == tag + field
    ensures buf[|tag|..|tag| + |field|] == field && forall i :: 0 <= i < |tag| ==> buf[i] == tag[i]
  {
    var n := |tag| + |field|;
    assert buf[|tag|..n] == buf[..n][|tag|..];
    assert forall i :: 0 <= i < |tag| ==> buf[i] == buf[..n][i];
  }

  lemma Ipv4OnTheWire(ip: Octets4, port: U16, data: Bytes, littleEndian: bool)
    ensures OnTheWire(Frame(Packet(V4(ip, port), data), littleEndian), V4(ip, port), data, littleEndian)
  {
    TailOnTheWire([1] + ip, port, data, littleEndian);
    HeadOnTheWire([1], ip, Frame(Packet(V4(ip, port), data), littleEndian));
  }

  lemma Ipv6OnTheWire(ip: Octets16, port: U16, flow: nat, scope: nat, data: Bytes, littleEndian: bool)
    ensures OnTheWire(Frame(Packet(V6(ip, port, flow, scope), data), littleEndian), V6(ip, port, flow, scope), data, littleEndian)
  {
    TailOnTheWire([4] + ip, port, data, littleEndian);
    HeadOnTheWire([4], ip, Frame(Packet(V6(ip, port, flow, scope), data), littleEndian));
  }

  lemma DomainOnTheWire(name: Bytes, port: U16, data: Bytes, littleEndian: bool)
    ensures OnTheWire(Frame(Packet(Domain(name, port), data), littleEndian), Domain(name, port), data, littleEndian)
  {
    TailOnTheWire([3, |name| % 256] + name, port, data, littleEndian);
    HeadOnTheWire([3, |name| % 256], name, Frame(Packet(Domain(name, port), data), littleEndian));
  }

  lemma FrameOnTheWire(p: Packet, littleEndian: bool)
    ensures OnTheWire(Frame(p, littleEndian), p.addr, p.payload, littleEndian)
  {
    match p.addr
    case V4(ip, port) => Ipv4OnTheWire(ip, port, p.payload, littleEndian);
    case Domain(name, port) => DomainOnTheWire(name, port, p.payload, littleEndian);
    case V6(ip, port, flow, scope) => Ipv6OnTheWire(ip, port, flow, scope, p.payload, littleEndian);
  }

  /** `encapsule_udp_packet`; the vector never outgrows the capacity reserved for it. */
  method EncapsuleUdpPacket(data: Bytes, dest: Addr, littleEndian: bool) returns (buf: Bytes, capacity: nat)
    ensures buf == Frame(Packet(dest, data), littleEndian)
    ensures |buf| == capacity
    ensures OnTheWire(buf, dest, data, littleEndian)
  {
    capacity := AddrLen(dest) + 4 + |data|;
    buf := Assemble(data, dest, littleEndian);
    FrameOnTheWire(Packet(dest, data), littleEndian);
  }

  method Assemble(data: Bytes, dest: Addr, littleEndian: bool) returns (buf: Bytes)
    ensures buf == Frame(Packet(dest, data), littleEndian) && |buf| == AddrLen(dest) + 4 + |data|
  {
    buf := ExtendData(dest, []);
    assert buf == AddrBytes(dest);
    buf := AppendPayload(buf, data, littleEndian);
  }

  method AppendPayload(buf: Bytes, data: Bytes, littleEndian: bool) returns (out: Bytes)
    ensures out == buf + BigEndian(|data| % 65536) + Separator(littleEndian) + data
    ensures |out| == |buf| + 4 + |data|
  {
    out := buf + BigEndian(|data| % 65536);
    out := out + Separator(littleEndian);
    out := out + data;
  }

  // ---------------------------------------------------------------- receiving

  /** A prefix of the stream read as a `T`, and the stream after it. */
  datatype Parsed<T> = Done(value: T, rest: Bytes) | BadFormat(rest: Bytes) | TooSmall(rest: Bytes) | Eof

  function ParseAddr(s: Bytes): Parsed<Addr> {
    if s == [] then Eof
    else if s[0] == 1 then
      if |s| < 7 then Eof else Done(V4(s[1..5], FromBigEndian(s[5], s[6])), s[7..])
    else if s[0] == 3 then
      if |s| < 2 || |s| - 4 < s[1] then Eof
      else var len: nat := s[1]; Done(Domain(s[2..2 + len], FromBigEndian(s[2 + len], s[3 + len])), s[4 + len..])
    else if s[0] == 4 then
      if |s| < 19 then Eof else Done(V6(s[1..17], FromBigEndian(s[17], s[18]), 0, 0), s[19..])
    else BadFormat(s[1..])
  }

  /** Length, separator and payload; any two bytes pass for the separator. */
  function ParsePayload(s: Bytes, room: nat): Parsed<Bytes> {
    if |s| < 4 then Eof
    else
      var n := FromBigEndian(s[0], s[1]);
      if n > room then TooSmall(s[4..])
      else if |s| < 4 + n then Eof
      else Done(s[4..4 + n], s[4 + n..])
  }

  function Parse(s: Bytes, room: nat): Parsed<Packet> {
    match ParseAddr(s)
    case Done(addr, rest) =>
      (match ParsePayload(rest, room)
       case Done(payload, rest') => Done(Packet(addr, payload), rest')
       case BadFormat(rest') => BadFormat(rest')
       case TooSmall(rest') => TooSmall(rest')
       case Eof => Eof)
    case BadFormat(rest) => BadFormat(rest)
    case TooSmall(rest) => TooSmall(rest)
    case Eof => Eof
  }

  class Reader {
    var stream: Bytes

    constructor (stream: Bytes)
      ensures this.stream == stream
    {
      this.stream := stream;
    }

    /** `read_exact(&mut dst[..n])` */
    method ReadExact(dst: array<Byte>, n: nat) returns (ok: bool)
      requires n <= dst.Length
      modifies this, dst
      ensures ok <==> n <= |old(stream)|
      ensures ok ==> dst[..n] == old(stream)[..n] && stream == old(stream)[n..]
      ensures !ok ==> stream == []
    {
      if n > |stream| {
        stream := [];
        return false;
      }
      for i := 0 to n
        invariant dst[..i] == stream[..i]
        modifies dst
      {
        dst[i] := stream[i];
      }
      stream := stream[n..];
      return true;
    }

    method ReadU16(dst: array<Byte>) returns (ok: bool, n: U16)
      requires dst.Length >= 2
      modifies this, dst
      ensures ok <==> 2 <= |old(stream)|
      ensures ok ==> n == FromBigEndian(old(stream)[0], old(stream)[1]) && stream == old(stream)[2..]
      ensures !ok ==> stream == []
    {
      ok := ReadExact(dst, 2);
      if !ok { return false, 0; }
      PrefixAt(dst[..2], old(stream), 0, 0);
      PrefixAt(dst[..2], old(stream), 0, 1);
      return true, FromBigEndian(dst[..2][0], dst[..2][1]);
    }

    /** An IP address of `n` octets and a port. */
    method ReadIp(header: array<Byte>, n: nat) returns (ok: bool, ip: Bytes, port: U16)
      requires header.Length == 256 && n < 100
      modifies this, header
      ensures ok <==> n + 2 <= |old(stream)|
      ensures ok ==> ip == old(stream)[..n] && port == FromBigEndian(old(stream)[n], old(stream)[n + 1]) && stream == old(stream)[n + 2..]
      ensures !ok ==> stream == []
    {
      ok := ReadExact(header, n + 2);
      if !ok { return false, [], 0; }
      PrefixAt(header[..n + 2], old(stream), n, n);
      PrefixAt(header[..n + 2], old(stream), n, n + 1);
      return true, header[..n + 2][..n], FromBigEndian(header[..n + 2][n], header[..n + 2][n + 1]);
    }

    /** A length, a domain name and a port. */
    method ReadDomain(header: array<Byte>) returns (ok: bool, name: Bytes, port: U16)
      requires header.Length == 256
      modifies this, header
      ensures ok <==> |old(stream)| >= 1 && |old(stream)| - 3 >= old(stream)[0]
      ensures ok ==> var s, len: nat := old(stream), old(stream)[0];
                     name == s[1..1 + len] && port == FromBigEndian(s[1 + len], s[2 + len]) && stream == s[3 + len..]
      ensures !ok ==> stream == []
    {
      ok := ReadExact(header, 1);
      if !ok { return false, [], 0; }
      PrefixAt(header[..1], old(stream), 0, 0);
      var len := header[..1][0];
      ok := ReadExact(header, len);
      if !ok { return false, [], 0; }
      name := header[..len];
      ok, port := ReadU16(header);
    }

    /** The address at the head of a packet. */
    method ReadAddr(header: array<Byte>) returns (r: Parsed<Addr>)
      requires header.Length == 256
      modifies this, header
      ensures r == ParseAddr(old(stream))
      ensures stream == if r.Eof? then [] else r.rest
    {
      var ok := ReadExact(header, 1);
      if !ok { return Eof; }
      PrefixAt(header[..1], old(stream), 0, 0);
      ghost var s := old(stream);
      match header[..1][0]
      case 1 =>
        var ok, ip, port := ReadIp(header, 4);
        if ok { Shift(s, 1, 4); Shift(s, 1, 6); }
        return if ok then Done(V4(ip, port), stream) else Eof;
      case 3 =>
        var ok, name, port := ReadDomain(header);
        if ok { Shift(s, 1, 1 + |name|); Shift(s, 1, 3 + |name|); }
        return if ok then Done(Domain(name, port), stream) else Eof;
      case 4 =>
        var ok, ip, port := ReadIp(header, 16);
        if ok { Shift(s, 1, 16); Shift(s, 1, 18); }
        return if ok then Done(V6(ip, port, 0, 0), stream) else Eof;
      case _ =>
        return BadFormat(stream);
    }

    /** `recv_from` */
    method RecvFrom(buffer: array<Byte>) returns (r: Parsed<(nat, Addr)>)
      modifies this, buffer
      ensures var p := Parse(old(stream), buffer.Length);
              && r.Done? == p.Done? && r.BadFormat? == p.BadFormat? && r.TooSmall? == p.TooSmall?
              && (!r.Eof? ==> r.rest == stream == p.rest) && (r.Eof? ==> stream == [])
              && (r.Done? ==> r.value == (|p.value.payload|, p.value.addr) && |p.value.payload| <= buffer.Length
                              && buffer[..|p.value.payload|] == p.value.payload)
    {
      var header := new Byte[256](_ => 0);
      var addr := ReadAddr(header);
      match addr
      case Done(src, _) =>
        ghost var s := stream;
        var lenBuf := new Byte[2](_ => 0);
        var ok, len := ReadU16(lenBuf);
        if !ok { return Eof; }
        ok := ReadExact(header, 2);
        if !ok { return Eof; }
        assert stream == s[4..];
        if len > buffer.Length { return TooSmall(stream); }
        ok := ReadExact(buffer, len);
        if !ok { return Eof; }
        assert stream == s[4 + len..];
        return Done((len, src), stream);
      case BadFormat(rest) => return BadFormat(rest);
      case TooSmall(rest) => return TooSmall(rest);
      case Eof => return Eof;
    }
  }

  lemma PrefixAt(got: Bytes, s: Bytes, n: nat, i: nat)
    requires n <= |got| <= |s| && i < |got| && got == s[..|got|]
    ensures got[..n] == s[..n] && got[i] == s[i]
  {
  }

  lemma Shift(s: Bytes, k: nat, n: nat)
    requires k + n <= |s|
    ensures s[k..][..n] == s[k..k + n] && s[k..][n..] == s[k + n..]
  {
  }

  // ---------------------------------------------------------------- the codec

  /** What a frame can carry. */
  predicate Representable(p: Packet) {
    && (p.addr.Domain? ==> |p.addr.name| <= 255)
    && (p.addr.V6? ==> p.addr.flow == 0 && p.addr.scope == 0)
    && |p.payload| <= 65535
  }

  /** The receiver yields nothing else. */
  lemma ParsedIsRepresentable(s: Bytes, room: nat)
    ensures Parse(s, room).Done? ==> Representable(Parse(s, room).value) && |Parse(s, room).value.payload| <= room
  {
  }

  /** A field behind `tag` and before a port is found again. */
  lemma FieldAt(tag: Bytes, field: Bytes, port: U16, rest: Bytes)
    ensures var s, n := tag + field + BigEndian(port) + rest, |tag| + |field|;
            && |s| >= n + 2 && (forall i :: 0 <= i < |tag| ==> s[i] == tag[i]) && s[|tag|..n] == field
            && FromBigEndian(s[n], s[n + 1]) == port && s[n + 2..] == rest
  {
    var s, n := tag + field + BigEndian(port) + rest, |tag| + |field|;
    assert s[n] == port / 256 && s[n + 1] == port % 256;
  }

  lemma Ipv4RoundTrip(ip: Octets4, port: U16, rest: Bytes)
    ensures ParseAddr([1] + ip + BigEndian(port) + rest) == Done(V4(ip, port), rest)
  {
    FieldAt([1], ip, port, rest);
  }

  lemma Ipv6RoundTrip(ip: Octets16, port: U16, rest: Bytes)
    ensures ParseAddr([4] + ip + BigEndian(port) + rest) == Done(V6(ip, port, 0, 0), rest)
  {
    FieldAt([4], ip, port, rest);
  }

  lemma DomainRoundTrip(name: Bytes, port: U16, rest: Bytes)
    requires |name| <= 255
    ensures ParseAddr([3, |name| % 256] + name + BigEndian(port) + rest) == Done(Domain(name, port), rest)
  {
    FieldAt([3, |name| % 256], name, port, rest);
  }

  lemma AddrRoundTrip(a: Addr, rest: Bytes)
    requires a.Domain? ==> |a.name| <= 255
    ensures ParseAddr(AddrBytes(a) + rest) == Done(if a.V6? then a.(flow := 0, scope := 0) else a, rest)
  {
    match a
    case V4(ip, port) => Ipv4RoundTrip(ip, port, rest);
    case Domain(name, port) => DomainRoundTrip(name, port, rest);
    case V6(ip, port, _, _) => Ipv6RoundTrip(ip, port, rest);
  }

  lemma PayloadRoundTrip(payload: Bytes, littleEndian: bool, rest: Bytes, room: nat)
    requires |payload| <= 65535
    ensures var s := BigEndian(|payload| % 65536) + Separator(littleEndian) + payload + rest;
            ParsePayload(s, room) == if |payload| <= room then Done(payload, rest) else TooSmall(payload + rest)
  {
    var s := BigEndian(|payload| % 65536) + Separator(littleEndian) + payload + rest;
    assert s[4..] == payload + rest;
    assert s[4..4 + |payload|] == payload && s[4 + |payload|..] == rest;
  }

  /** A frame followed by anything is received as the packet it was made of, and exactly the frame
      is consumed, if and only if the packet is representable and the payload fits the buffer. */
  lemma FrameRoundTrip(p: Packet, littleEndian: bool, rest: Bytes, room: nat)
    ensures Parse(Frame(p, littleEndian) + rest, room) == Done(p, rest) <==> Representable(p) && |p.payload| <= room
    // a payload that does not fit is left in the stream, where the next receive takes it for a header
    ensures Representable(p) && |p.payload| > room ==> Parse(Frame(p, littleEndian) + rest, room) == TooSmall(p.payload + rest)
  {
    if Representable(p) {
      var body := BigEndian(|p.payload| % 65536) + Separator(littleEndian) + p.payload + rest;
      assert Frame(p, littleEndian) + rest == AddrBytes(p.addr) + body;
      AddrRoundTrip(p.addr, body);
      PayloadRoundTrip(p.payload, littleEndian, rest, room);
    } else {
      ParsedIsRepresentable(Frame(p, littleEndian) + rest, room);
    }
  }

  function Frames(ps: seq<Packet>, littleEndian: bool): seq<Bytes> {
    seq(|ps|, i requires 0 <= i < |ps| => Frame(ps[i], littleEndian))
  }

  /** Receiving `n` packets one after the other. */
  function ParseMany(s: Bytes, room: nat, n: nat): Option<(seq<Packet>, Bytes)> {
    if n == 0 then Some(([], s))
    else
      var first := Parse(s, room);
      if !first.Done? then None
      else
        var more := ParseMany(first.rest, room, n - 1);
        if more.None? then None else Some(([first.value] + more.value.0, more.value.1))
  }

  lemma PeelFrame(ps: seq<Packet>, littleEndian: bool, rest: Bytes)
    requires ps != []
    ensures Flatten(Frames(ps, littleEndian)) + rest
         == Frame(ps[0], littleEndian) + (Flatten(Frames(ps[1..], littleEndian)) + rest)
  {
    FramesTail(ps, littleEndian);
    Assoc(Frames(ps, littleEndian)[0], Flatten(Frames(ps[1..], littleEndian)), rest);
  }

  lemma FramesTail(ps: seq<Packet>, littleEndian: bool)
    requires ps != []
    ensures Frames(ps, littleEndian)[1..] == Frames(ps[1..], littleEndian)
  {
  }

  predicate AllFit(ps: seq<Packet>, room: nat) {
    forall i :: 0 <= i < |ps| ==> Representable(ps[i]) && |ps[i].payload| <= room
  }

  lemma {:induction false} ReceivedFit(s: Bytes, room: nat, n: nat)
    ensures ParseMany(s, room, n).Some? ==> AllFit(ParseMany(s, room, n).value.0, room)
  {
    if n > 0 && Parse(s, room).Done? {
      ParsedIsRepresentable(s, room);
      ReceivedFit(Parse(s, room).rest, room, n - 1);
    }
  }

  /** Any list of frames is received as the packets in order, and nothing beyond it is consumed,
      if and only if every packet is representable and fits the buffer. */
  lemma FramesRoundTrip(ps: seq<Packet>, littleEndian: bool, rest: Bytes, room: nat)
    ensures ParseMany(Flatten(Frames(ps, littleEndian)) + rest, room, |ps|) == Some((ps, rest)) <==> AllFit(ps, room)
  {
    if AllFit(ps, room) {
      FramesReceived(ps, littleEndian, rest, room);
    } else {
      ReceivedFit(Flatten(Frames(ps, littleEndian)) + rest, room, |ps|);
    }
  }

  lemma {:induction false} FramesReceived(ps: seq<Packet>, littleEndian: bool, rest: Bytes, room: nat)
    requires AllFit(ps, room)
    ensures ParseMany(Flatten(Frames(ps, littleEndian)) + rest, room, |ps|) == Some((ps, rest))
  {
    if ps == [] {
      assert Flatten(Frames(ps, littleEndian)) + rest == rest;
    } else {
      var later := Flatten(Frames(ps[1..], littleEndian)) + rest;
      PeelFrame(ps, littleEndian, rest);
      FrameRoundTrip(ps[0], littleEndian, later, room);
      FramesReceived(ps[1..], littleEndian, rest, room);
      ParseManyStep(ps, Frame(ps[0], littleEndian) + later, later, rest, room);
    }
  }

  lemma ParseManyStep(ps: seq<Packet>, s: Bytes, later: Bytes, rest: Bytes, room: nat)
    requires ps != [] && Parse(s, room) == Done(ps[0], later)
    requires ParseMany(later, room, |ps| - 1) == Some((ps[1..], rest))
    ensures ParseMany(s, room, |ps|) == Some((ps, rest))
  {
    assert [ps[0]] + ps[1..] == ps;
  }

  lemma FramesSnoc(ps: seq<Packet>, i: nat, littleEndian: bool)
    requires i < |ps|
    ensures Frames(ps[..i + 1], littleEndian) == Frames(ps[..i], littleEndian) + [Frame(ps[i], littleEndian)]
  {
  }

  /** What sending the packets one after the other puts on the stream. */
  method SendAll(ps: seq<Packet>, littleEndian: bool) returns (wire: Bytes)
    ensures wire == Flatten(Frames(ps, littleEndian))
  {
    wire := [];
    for i := 0 to |ps|
      invariant wire == Flatten(Frames(ps[..i], littleEndian))
    {
      var frame, _ := EncapsuleUdpPacket(ps[i].payload, ps[i].addr, littleEndian);
      FlattenSnoc(Frames(ps[..i], littleEndian), frame);
      FramesSnoc(ps, i, littleEndian);
      wire := wire + frame;
    }
    assert ps[..|ps|] == ps;
  }

  /** Repeated `recv_from`, as long as packets are well formed. */
  method RecvAll(reader: Reader, room: nat, n: nat) returns (ps: seq<Packet>)
    requires ParseMany(reader.stream, room, n).Some?
    modifies reader
    ensures (ps, reader.stream) == ParseMany(old(reader.stream), room, n).value
  {
    if n == 0 { return []; }
    var p := RecvOne(reader, room);
    var more := RecvAll(reader, room, n - 1);
    return [p] + more;
  }

  method RecvOne(reader: Reader, room: nat) returns (p: Packet)
    requires Parse(reader.stream, room).Done?
    modifies reader
    ensures Done(p, reader.stream) == Parse(old(reader.stream), room)
  {
    var buffer := new Byte[room](_ => 0);
    var r := reader.RecvFrom(buffer);
    p := Packet(r.value.1, buffer[..r.value.0]);
  }

  /** Send all packets into a stream and receive them again. */
  method Relay(ps: seq<Packet>, littleEndian: bool, rest: Bytes, room: nat) returns (received: seq<Packet>, left: Bytes)
    requires AllFit(ps, room)
    ensures received == ps && left == rest
  {
    var wire := SendAll(ps, littleEndian);
    FramesRoundTrip(ps, littleEndian, rest, room);
    var reader := new Reader(wire + rest);
    received := RecvAll(reader, room, |ps|);
    left := reader.stream;
  }
}
