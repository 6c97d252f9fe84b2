/** What the bytes of a SOCKS5 request stand for (section 4 of RFC 1928), and how the source reads them. */
module SocksRequest {
  import opened Common
  import opened SocksAddr

  datatype Scan = More | Parsed(result: Result<Socket>, size: nat)

  /**
   How many bytes the source expects behind the length byte of a domain: the byte plus two, in
   eight bits. When that gives one, the next byte is taken for a length again.
   */
  function NeedAfterLength(len: byte): byte {
    (len + 2) % 256
  }

  /** From the length byte of a domain on. */
  function ScanDomain(cmd: byte, s: Bytes): Scan {
    if |s| == 0 then More
    else
      var need: nat := NeedAfterLength(s[0]);
      if need == 1 then Shift(ScanDomain(cmd, s[1..]), 1)
      else if |s| < 1 + need then More
      else Parsed(ParseAddress(cmd, 3, s[1..1 + need]), 1 + need)
  }

  function Shift(r: Scan, k: nat): Scan {
    if r.More? then More else Parsed(r.result, r.size + k)
  }

  function ScanRequest(s: Bytes): Scan {
    if |s| < 4 then More
    else if s[0] != 5 then Parsed(Err(SocksProtocol), 4)
    else match s[3]
      case 1 => if |s| < 10 then More else Parsed(ParseAddress(s[1], 1, s[4..10]), 10)
      case 4 => if |s| < 22 then More else Parsed(ParseAddress(s[1], 4, s[4..22]), 22)
      case 3 => Shift(ScanDomain(s[1], s[4..]), 4)
      case _ => Parsed(Err(SocksInvalidAddress), 4)
  }

  /** A request for a proper address is understood. */
  lemma ProperRequest(cmd: byte, rsv: byte, a: Addr, rest: Bytes)
    requires WellFormed(a) && (a.Domain? ==> |a.name| <= 253)
    ensures ScanRequest(RequestBytes(cmd, rsv, a) + rest) == Parsed(Answer(cmd, a), |RequestBytes(cmd, rsv, a)|)
  {
    if a.Domain? {
      DomainRequest(cmd, rsv, a, rest);
    } else {
      IpRequest(cmd, rsv, a, rest);
    }
  }

  lemma DomainRequest(cmd: byte, rsv: byte, a: Addr, rest: Bytes)
    requires a.Domain? && |a.name| <= 253
    ensures ScanRequest(RequestBytes(cmd, rsv, a) + rest) == Parsed(Answer(cmd, a), 7 + |a.name|)
  {
    hide ScanDomain, ParseAddr;
    var n := |a.name|;
    var s := RequestBytes(cmd, rsv, a) + rest;
    assert s[4..] == [n] + (a.name + BE16(a.port) + rest);
    DomainBody(cmd, a, rest);
  }

  lemma DomainBody(cmd: byte, a: Addr, rest: Bytes)
    requires a.Domain? && |a.name| <= 253
    ensures ScanDomain(cmd, [|a.name|] + (a.name + BE16(a.port) + rest)) == Parsed(Answer(cmd, a), 3 + |a.name|)
  {
    FromBE16OfBE16(a.port);
    var n := |a.name|;
    var s := [n] + (a.name + BE16(a.port) + rest);
    assert NeedAfterLength(s[0]) == n + 2;
    var body := s[1..1 + n + 2];
    assert body == a.name + BE16(a.port);
    assert body[..n] == a.name && body[n..] == BE16(a.port);
  }

  lemma IpRequest(cmd: byte, rsv: byte, a: Addr, rest: Bytes)
    requires WellFormed(a) && !a.Domain?
    ensures ScanRequest(RequestBytes(cmd, rsv, a) + rest) == Parsed(Answer(cmd, a), 6 + |a.ip|)
  {
    FromBE16OfBE16(a.port);
    var s := RequestBytes(cmd, rsv, a) + rest;
    var k := |a.ip|;
    var body := s[4..4 + k + 2];
    assert body == a.ip + BE16(a.port);
    assert body[..k] == a.ip && body[k..k + 2] == BE16(a.port);
  }

  /** What a command on an address comes to. */
  function Answer(cmd: byte, a: Addr): Result<Socket> {
    if cmd == CONNECT then Ok(Tcp(a)) else if cmd == ASSOCIATE then Ok(Udp(a)) else Err(SocksBindNotSupport)
  }

  /** The commands of the protocol: 1 connects, 3 asks for UDP, and no other is supported. */
  lemma CommandsOnTheWire(cmd: byte, a: Addr)
    ensures Answer(cmd, a) == if cmd == 1 then Ok(Tcp(a)) else if cmd == 3 then Ok(Udp(a)) else Err(SocksBindNotSupport)
  {
  }

  /** Four bytes decide whether a request is read on: another version or kind of address ends it. */
  lemma RefusedOnTheWire(s: Bytes)
    ensures |s| < 4 ==> ScanRequest(s) == More
    ensures |s| >= 4 && s[0] != 5 ==> ScanRequest(s) == Parsed(Err(SocksProtocol), 4)
    ensures |s| >= 4 && s[0] == 5 && s[3] !in {1, 3, 4} ==> ScanRequest(s) == Parsed(Err(SocksInvalidAddress), 4)
  {
  }

  /** Requests byte by byte: the kind of address decides how the bytes behind it are read, the port has its high byte first. */
  lemma RequestOnTheWire(cmd: byte, rsv: byte, ip: Bytes, hi: byte, lo: byte, rest: Bytes)
    ensures var port := 256 * (hi as int) + lo as int;
            && (|ip| == 4 ==>
                  ScanRequest([5, cmd, rsv, 1] + ip + [hi, lo] + rest) == Parsed(Answer(cmd, V4(ip, port)), 10))
            && (|ip| == 16 ==>
                  ScanRequest([5, cmd, rsv, 4] + ip + [hi, lo] + rest) == Parsed(Answer(cmd, V6(ip, port)), 22))
            && (|ip| <= 253 ==>
                  ScanRequest([5, cmd, rsv, 3, |ip|] + ip + [hi, lo] + rest) == Parsed(Answer(cmd, Domain(ip, port)), 7 + |ip|))
  {
    hide ScanRequest, Answer, RequestBytes;
    var port := 256 * (hi as int) + lo as int;
    BytesOnTheWire(cmd, rsv, ip, hi, lo);
    if |ip| == 4 {
      ProperRequest(cmd, rsv, V4(ip, port), rest);
    } else if |ip| == 16 {
      ProperRequest(cmd, rsv, V6(ip, port), rest);
    }
    if |ip| <= 253 {
      ProperRequest(cmd, rsv, Domain(ip, port), rest);
    }
  }

  lemma BytesOnTheWire(cmd: byte, rsv: byte, ip: Bytes, hi: byte, lo: byte)
    ensures var port := 256 * (hi as int) + lo as int;
            && RequestBytes(cmd, rsv, V4(ip, port)) == [5, cmd, rsv, 1] + ip + [hi, lo]
            && RequestBytes(cmd, rsv, V6(ip, port)) == [5, cmd, rsv, 4] + ip + [hi, lo]
            && (|ip| < 256 ==> RequestBytes(cmd, rsv, Domain(ip, port)) == [5, cmd, rsv, 3, |ip|] + ip + [hi, lo])
  {
    var port := 256 * (hi as int) + lo as int;
    assert [port / 256, port % 256] == [hi, lo];
    assert [5, cmd, rsv, 1] + (ip + [hi, lo]) == [5, cmd, rsv, 1] + ip + [hi, lo];
    assert [5, cmd, rsv, 4] + (ip + [hi, lo]) == [5, cmd, rsv, 4] + ip + [hi, lo];
    if |ip| < 256 {
      assert [5, cmd, rsv, 3] + ([|ip|] + ip + [hi, lo]) == [5, cmd, rsv, 3, |ip|] + ip + [hi, lo];
    }
  }

  lemma {:induction false} DomainsAreShort(cmd: byte, s: Bytes)
    ensures match ScanDomain(cmd, s)
            case Parsed(Ok(socket), _) => socket.addr.Domain? && |socket.addr.name| <= 253
            case _ => true
  {
    if |s| > 0 && NeedAfterLength(s[0]) == 1 {
      DomainsAreShort(cmd, s[1..]);
    }
  }

  const TRANSPORT: set<Error> := {Io, UnexpectedEof, ConnectionReset}

  /** No request is refused with the error that declines a greeting, or with one of the transport. */
  lemma {:induction false} NeverDeclined(cmd: byte, s: Bytes)
    ensures match ScanDomain(cmd, s) case Parsed(Err(e), _) => !e.SocksHead? && e !in TRANSPORT case _ => true
    ensures match ScanRequest(s) case Parsed(Err(e), _) => !e.SocksHead? && e !in TRANSPORT case _ => true
    decreases |s|
  {
    if |s| > 0 {
      NeverDeclined(cmd, s[1..]);
    }
    if |s| >= 4 {
      NeverDeclined(s[1], s[4..]);
    }
  }

  /** The requested address is what comes out exactly if it is an IP address or a domain up to 253 bytes. */
  lemma RequestUnderstoodIff(cmd: byte, rsv: byte, a: Addr, rest: Bytes)
    requires WellFormed(a) && (a.Domain? ==> |a.name| < 256) && Answer(cmd, a).Ok?
    ensures ScanRequest(RequestBytes(cmd, rsv, a) + rest) == Parsed(Answer(cmd, a), |RequestBytes(cmd, rsv, a)|)
            <==> (a.Domain? ==> |a.name| <= 253)
  {
    if a.Domain? && |a.name| > 253 {
      var s := RequestBytes(cmd, rsv, a) + rest;
      assert s[3] == 3;
      DomainsAreShort(cmd, s[4..]);
    } else {
      ProperRequest(cmd, rsv, a, rest);
    }
  }

  lemma {:induction false} ScanDomainStable(cmd: byte, s: Bytes, more: Bytes)
    requires ScanDomain(cmd, s).Parsed?
    ensures ScanDomain(cmd, s + more) == ScanDomain(cmd, s)
    decreases |s|
  {
    var need: nat := NeedAfterLength(s[0]);
    assert (s + more)[0] == s[0] && (s + more)[1..] == s[1..] + more;
    if need == 1 {
      ScanDomainStable(cmd, s[1..], more);
    } else {
      assert (s + more)[1..1 + need] == s[1..1 + need];
    }
  }

  /** Once a request is read, what follows does not change what it was. */
  lemma ScanRequestStable(s: Bytes, more: Bytes)
    requires ScanRequest(s).Parsed?
    ensures ScanRequest(s + more) == ScanRequest(s)
  {
    var t := s + more;
    assert t[0] == s[0] && t[1] == s[1] && t[3] == s[3];
    assert t[4..] == s[4..] + more;
    if s[0] == 5 {
      match s[3]
      case 1 => assert t[4..10] == s[4..10];
      case 4 => assert t[4..22] == s[4..22];
      case 3 => ScanDomainStable(s[1], s[4..], more);
      case _ =>
    }
  }

  // ---- What the machine still expects behind what it has read ----

  /** Exactly `need` more bytes, which are an address of the given type. */
  ghost predicate ExpectsAddress(prefix: Bytes, cmd: byte, atype: byte, need: nat) {
    forall x: Bytes {:trigger ScanRequest(prefix + x)} | |x| <= need ::
      ScanRequest(prefix + x) == if |x| < need then More else Parsed(ParseAddress(cmd, atype, x), |prefix| + need)
  }

  /** A length byte and what follows it. */
  ghost predicate ExpectsLength(prefix: Bytes, cmd: byte) {
    forall x: Bytes {:trigger ScanRequest(prefix + x)} ::
      ScanRequest(prefix + x) == Shift(ScanDomain(cmd, x), |prefix|)
  }

  lemma AfterHeader(cmd: byte, rsv: byte, atype: byte)
    ensures var p := [5, cmd, rsv, atype];
            && (atype == 1 ==> ExpectsAddress(p, cmd, 1, 6))
            && (atype == 4 ==> ExpectsAddress(p, cmd, 4, 18))
            && (atype == 3 ==> ExpectsLength(p, cmd))
  {
    var p := [5, cmd, rsv, atype];
    forall x: Bytes ensures (p + x)[..4] == p && (p + x)[4..] == x {
    }
    if atype == 1 {
      forall x: Bytes | |x| <= 6
        ensures ScanRequest(p + x) == if |x| < 6 then More else Parsed(ParseAddress(cmd, 1, x), 10)
      {
        assert |x| == 6 ==> (p + x)[4..10] == x;
      }
    } else if atype == 4 {
      forall x: Bytes | |x| <= 18
        ensures ScanRequest(p + x) == if |x| < 18 then More else Parsed(ParseAddress(cmd, 4, x), 22)
      {
        assert |x| == 18 ==> (p + x)[4..22] == x;
      }
    } else if atype == 3 {
      forall x: Bytes ensures ScanRequest(p + x) == Shift(ScanDomain(cmd, x), 4) {
        assert (p + x)[4..] == x;
      }
    }
  }

  lemma AfterLength(prefix: Bytes, cmd: byte, len: byte)
    requires ExpectsLength(prefix, cmd)
    ensures var need := NeedAfterLength(len);
            if need == 1 then ExpectsLength(prefix + [len], cmd) else ExpectsAddress(prefix + [len], cmd, 3, need)
  {
    hide ScanRequest, ScanDomain;
    var need: nat, p := NeedAfterLength(len), prefix + [len];
    if need == 1 {
      forall x: Bytes ensures ScanRequest(p + x) == Shift(ScanDomain(cmd, x), |p|) {
        Assoc(prefix, [len], x);
        ScanBehindLength(cmd, len, x);
      }
    } else {
      forall x: Bytes | |x| <= need
        ensures ScanRequest(p + x) == if |x| < need then More else Parsed(ParseAddress(cmd, 3, x), |p| + need)
      {
        Assoc(prefix, [len], x);
        ScanBehindLength(cmd, len, x);
      }
    }
  }

  lemma ScanBehindLength(cmd: byte, len: byte, x: Bytes)
    ensures var need: nat := NeedAfterLength(len);
            && (need == 1 ==> ScanDomain(cmd, [len] + x) == Shift(ScanDomain(cmd, x), 1))
            && (need != 1 && |x| < need ==> ScanDomain(cmd, [len] + x) == More)
            && (need != 1 && |x| == need ==> ScanDomain(cmd, [len] + x) == Parsed(ParseAddress(cmd, 3, x), 1 + need))
  {
    var s := [len] + x;
    assert s[0] == len && s[1..] == x;
    var need: nat := NeedAfterLength(len);
    assert need != 1 && |x| == need ==> s[1..1 + need] == x;
  }

  /** A request that still lacks bytes of its address has no meaning yet. */
  lemma AddressLacks(prefix: Bytes, cmd: byte, atype: byte, need: nat, part: Bytes)
    requires ExpectsAddress(prefix, cmd, atype, need) && |part| < need
    ensures ScanRequest(prefix + part) == More
  {
  }

  lemma LengthLacks(prefix: Bytes, cmd: byte)
    requires ExpectsLength(prefix, cmd)
    ensures ScanRequest(prefix + []) == More
  {
  }
}
