/** Addresses in SOCKS5 messages (src/net/socks/mod.rs; sections 4, 5 and 7 of RFC 1928). */
module SocksAddr {
  import opened Common

  type u16 = x: int | 0 <= x < 0x1_0000

  datatype Addr =
    | V4(ip: Bytes, port: u16)
    | V6(ip: Bytes, port: u16)
    | Domain(name: Bytes, port: u16)

  datatype Socket = Tcp(addr: Addr) | Udp(addr: Addr)

  predicate WellFormed(a: Addr) {
    match a
    case V4(ip, _) => |ip| == 4
    case V6(ip, _) => |ip| == 16
    case Domain(_, _) => true
  }

  function BE16(n: u16): (s: Bytes)
    ensures |s| == 2
  {
    [n / 256, n % 256]
  }

  function FromBE16(s: Bytes): u16
    requires |s| == 2
  {
    var hi: int, lo: int := s[0], s[1];
    256 * hi + lo
  }

  lemma FromBE16OfBE16(n: u16)
    ensures FromBE16(BE16(n)) == n
  {
  }

  lemma BE16OfFromBE16(s: Bytes)
    requires |s| == 2
    ensures BE16(FromBE16(s)) == s
  {
    var hi: int, lo: int := s[0], s[1];
    assert (256 * hi + lo) / 256 == hi && (256 * hi + lo) % 256 == lo;
  }

  const CONNECT: byte := 1
  const BIND: byte := 2
  const ASSOCIATE: byte := 3

  /**
   The address that `data` is taken for. The source reads a fixed number of bytes for the two IP
   kinds; a domain and its port are everything there is.
   */
  function ParseAddr(atype: byte, data: Bytes): Result<Addr> {
    match atype
    case 1 => if |data| < 6 then Err(Panic) else Ok(V4(data[..4], FromBE16(data[4..6])))
    case 4 => if |data| < 18 then Err(Panic) else Ok(V6(data[..16], FromBE16(data[16..18])))
    case 3 =>
      var n := |data|;
      if n < 2 then Err(Panic) else Ok(Domain(data[..n - 2], FromBE16(data[n - 2..])))
    case _ => Err(SocksInvalidAddress)
  }

  function ParseAddress(cmd: byte, atype: byte, data: Bytes): Result<Socket> {
    if cmd == BIND then Err(SocksBindNotSupport) else
    match ParseAddr(atype, data)
    case Err(e) => Err(e)
    case Ok(addr) =>
      if cmd == CONNECT then Ok(Tcp(addr))
      else if cmd == ASSOCIATE then Ok(Udp(addr))
      else Err(SocksBindNotSupport)
  }

  // ---- The request of the handshake ----

  function AType(a: Addr): byte {
    match a
    case V4(_, _) => 1
    case Domain(_, _) => 3
    case V6(_, _) => 4
  }

  /** The address as the client of the protocol sends it. */
  function AddrBytes(a: Addr): Bytes
    requires a.Domain? ==> |a.name| < 256
  {
    match a
    case V4(ip, port) => ip + [port / 256, port % 256]
    case V6(ip, port) => ip + [port / 256, port % 256]
    case Domain(name, port) => [|name|] + name + [port / 256, port % 256]
  }

  function RequestBytes(cmd: byte, rsv: byte, a: Addr): Bytes
    requires a.Domain? ==> |a.name| < 256
  {
    [5, cmd, rsv, AType(a)] + AddrBytes(a)
  }

  // ---- The header of a UDP datagram ----

  /** `send_packed_udp_forward_message`: the length of a domain is cast to a byte. */
  function PackDatagram(origin: Addr, payload: Bytes): Bytes {
    [0, 0, 0] +
    (match origin
     case V4(ip, port) => [1] + ip + BE16(port)
     case V6(ip, port) => [4] + ip + BE16(port)
     case Domain(name, port) => [3, |name| % 256] + name + BE16(port)) +
    payload
  }

  /** `parse_and_forward_data`: the destination and the payload to forward to it. */
  function ParseDatagram(data: Bytes): Result<(Addr, Bytes)> {
    if |data| < 6 then Err(BadForward)
    else if data[2] != 0 then Err(SocksFragment)
    else if data[3] !in {1, 3, 4} then Err(SocksInvalidAddress)
    else
      var size := if data[3] == 3 then data[4] else if data[3] == 1 then 6 else 18;
      var body := if data[3] == 3 then data[5..] else data[4..];
      match ParseAddress(ASSOCIATE, data[3], body)
      case Err(e) => Err(e)
      case Ok(socket) => if |body| < size then Err(Panic) else Ok((socket.addr, body[size..]))
  }

  /** The bytes of a packed datagram: two reserved, no fragment, the kind of address, the address, the port, high byte first. */
  lemma PackedOnTheWire(ip: Bytes, hi: byte, lo: byte, payload: Bytes)
    ensures var port := 256 * (hi as int) + lo as int;
            && PackDatagram(V4(ip, port), payload) == [0, 0, 0, 1] + ip + [hi, lo] + payload
            && PackDatagram(V6(ip, port), payload) == [0, 0, 0, 4] + ip + [hi, lo] + payload
            && (|ip| < 256 ==> PackDatagram(Domain(ip, port), payload) == [0, 0, 0, 3, |ip|] + ip + [hi, lo] + payload)
  {
    BE16OfFromBE16([hi, lo]);
    assert [0, 0, 0] + ([1] + ip + [hi, lo]) + payload == [0, 0, 0, 1] + ip + [hi, lo] + payload;
    assert [0, 0, 0] + ([4] + ip + [hi, lo]) + payload == [0, 0, 0, 4] + ip + [hi, lo] + payload;
    if |ip| < 256 {
      assert [0, 0, 0] + ([3, |ip|] + ip + [hi, lo]) + payload == [0, 0, 0, 3, |ip|] + ip + [hi, lo] + payload;
    }
  }

  /** A datagram for an IP address is taken apart byte by byte as it was put together. */
  lemma ParsedOnTheWire(r0: byte, r1: byte, ip: Bytes, hi: byte, lo: byte, payload: Bytes)
    requires |ip| == 4 || |ip| == 16
    ensures var port := 256 * (hi as int) + lo as int;
            if |ip| == 4
            then ParseDatagram([r0, r1, 0, 1] + ip + [hi, lo] + payload) == Ok((V4(ip, port), payload))
            else ParseDatagram([r0, r1, 0, 4] + ip + [hi, lo] + payload) == Ok((V6(ip, port), payload))
  {
    var port := 256 * (hi as int) + lo as int;
    var a := if |ip| == 4 then V4(ip, port) else V6(ip, port);
    var data := [r0, r1, 0, if |ip| == 4 then 1 else 4] + ip + [hi, lo] + payload;
    PackedOnTheWire(ip, hi, lo, payload);
    assert data[2..] == PackDatagram(a, payload)[2..];
    ReservedIgnored(data, a, payload);
  }

  /** Behind the length byte everything is taken for a domain and its port, and the payload begins inside it. */
  lemma DomainParsedOnTheWire(r0: byte, r1: byte, len: byte, name: Bytes, hi: byte, lo: byte)
    requires len <= |name| + 2
    ensures var body, port := name + [hi, lo], 256 * (hi as int) + lo as int;
            ParseDatagram([r0, r1, 0, 3, len] + body) == Ok((Domain(name, port), body[len..]))
  {
    var data := [r0, r1, 0, 3, len] + (name + [hi, lo]);
    assert data[5..] == name + [hi, lo];
    assert data[5..][..|name|] == name && data[5..][|name|..] == [hi, lo];
  }

  lemma IpRoundTrip(origin: Addr, payload: Bytes)
    requires WellFormed(origin) && !origin.Domain?
    ensures ParseDatagram(PackDatagram(origin, payload)) == Ok((origin, payload))
  {
    var d := PackDatagram(origin, payload);
    var k := |origin.ip|;
    var body := d[4..];
    assert body == origin.ip + BE16(origin.port) + payload;
    assert body[..k] == origin.ip && body[k..k + 2] == BE16(origin.port) && body[k + 2..] == payload;
    FromBE16OfBE16(origin.port);
  }

  /** A domain origin always brings its port along as payload. */
  lemma DomainPayloadGrows(origin: Addr, payload: Bytes)
    requires origin.Domain?
    ensures match ParseDatagram(PackDatagram(origin, payload))
            case Ok((_, p)) => |p| >= |payload| + 2
            case Err(_) => false
  {
    var d := PackDatagram(origin, payload);
    assert d[3] == 3 && d[4] == |origin.name| % 256;
    assert d[5..] == origin.name + BE16(origin.port) + payload;
  }

  /** The header builder and parser are inverse exactly on IP origins. */
  lemma DatagramRoundTripIffIp(origin: Addr, payload: Bytes)
    requires WellFormed(origin)
    ensures ParseDatagram(PackDatagram(origin, payload)) == Ok((origin, payload)) <==> !origin.Domain?
  {
    if origin.Domain? {
      DomainPayloadGrows(origin, payload);
    } else {
      IpRoundTrip(origin, payload);
    }
  }

  /** What a datagram for an IP address says is what packing its result says, but for the two reserved bytes. */
  lemma IpDatagramIsPacked(data: Bytes)
    requires ParseDatagram(data).Ok? && data[3] != 3
    ensures var (a, p) := ParseDatagram(data).value;
            WellFormed(a) && PackDatagram(a, p)[2..] == data[2..]
  {
    var k := if data[3] == 1 then 4 else 16;
    IpDatagramIs(data, k);
    var ip, hi, lo, p := data[4..4 + k], data[4 + k], data[5 + k], data[6 + k..];
    PackedOnTheWire(ip, hi, lo, p);
    var packed := [0, 0, 0, data[3]] + ip + [hi, lo] + p;
    assert packed[2..] == data[2..];
  }

  lemma IpDatagramIs(data: Bytes, k: nat)
    requires ParseDatagram(data).Ok? && ((data[3] == 1 && k == 4) || (data[3] == 4 && k == 16))
    ensures |data| >= 6 + k && data[2] == 0
    ensures var ip, port, p := data[4..4 + k], 256 * (data[4 + k] as int) + data[5 + k] as int, data[6 + k..];
            ParseDatagram(data).value == (if k == 4 then V4(ip, port) else V6(ip, port), p)
  {
    var body := data[4..];
    assert body[..k] == data[4..4 + k] && body[k..k + 2] == [data[4 + k], data[5 + k]] && body[k + 2..] == data[6 + k..];
  }

  /**
   Which datagrams are forwarded at all; those that are not for a domain are exactly the ones that, but
   for the reserved bytes, pack a payload for an IP address.
   */
  lemma ForwardedIff(data: Bytes)
    ensures ParseDatagram(data).Ok? <==>
              && |data| >= 6 && data[2] == 0
              && (data[3] == 1 ==> |data| >= 10) && (data[3] == 4 ==> |data| >= 22)
              && (data[3] == 3 ==> |data| >= 7 && |data| >= 5 + data[4] as int)
              && (data[3] == 1 || data[3] == 3 || data[3] == 4)
    ensures |data| >= 4 && data[3] != 3 ==>
              (ParseDatagram(data).Ok? <==>
               exists a: Addr, p: Bytes :: WellFormed(a) && !a.Domain? && data[2..] == PackDatagram(a, p)[2..])
  {
    if |data| < 4 || data[3] == 3 {
      return;
    }
    if ParseDatagram(data).Ok? {
      IpDatagramIsPacked(data);
    }
    if a: Addr, p: Bytes :| WellFormed(a) && !a.Domain? && data[2..] == PackDatagram(a, p)[2..] {
      ReservedIgnored(data, a, p);
    }
  }

  /** The first two bytes make no difference. */
  lemma ReservedIgnored(data: Bytes, a: Addr, p: Bytes)
    requires |data| >= 4 && WellFormed(a) && !a.Domain? && data[2..] == PackDatagram(a, p)[2..]
    ensures ParseDatagram(data) == Ok((a, p))
  {
    var d := PackDatagram(a, p);
    IpRoundTrip(a, p);
    assert |data| == |d|;
    assert data[2] == data[2..][0] == d[2] && data[3] == data[2..][1] == d[3];
    assert data[4..] == data[2..][2..] == d[2..][2..] == d[4..];
  }
}
