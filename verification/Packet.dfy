/** Packets on the wire and the futures that send and receive them (src/core/protocol/mod.rs). */
module Packet {
  import opened Common
  import opened Framing
  import AsyncIo

  const MAGIC: Bytes := [0x66, 0x75, 0x73, 0x6f]
  const HEAD: nat := 8

  /** The magic number is kept as its four bytes, in the order in which they are sent. */
  datatype Packet = Packet(magic: Bytes, dataLen: u32, payload: Bytes)

  function MakePacket(buf: Bytes): Packet {
    Packet(MAGIC, |buf| % 0x1_0000_0000, buf)
  }

  function EmptyPacket(): Packet {
    Packet(MAGIC, 0, [])
  }

  function Encode(p: Packet): Bytes {
    p.magic + LE32(p.dataLen) + p.payload
  }

  /** What a byte stream starts with. */
  datatype Scan = NeedMore | Malformed(magic: Bytes) | Whole(packet: Packet, size: nat)

  function ScanPacket(s: Bytes): (r: Scan)
    ensures r.Whole? ==> r.size <= |s|
  {
    if |s| < HEAD then NeedMore
    else if s[..4] != MAGIC then Malformed(s[..4])
    else
      var n := FromLE32(s[4..8]);
      if n == 0 then Whole(EmptyPacket(), HEAD)
      else if |s| < HEAD + n then NeedMore
      else Whole(MakePacket(s[HEAD..HEAD + n]), HEAD + n)
  }

  /** The bytes of a packet: "fuso", the length with its lowest byte first, and the payload. */
  lemma PacketOnTheWire(p: Bytes)
    requires Framable(p)
    ensures Encode(MakePacket(p)) == [0x66, 0x75, 0x73, 0x6f] + Frame(p)
  {
    Assoc(MAGIC, LE32(|p|), p);
  }

  /** What a stream starts with, said by the bytes: anything but a packet is refused after eight of them. */
  lemma ScanMeans(s: Bytes, p: Bytes)
    requires Framable(p)
    ensures ScanPacket(s).Malformed? <==> |s| >= 8 && s[..4] != [0x66, 0x75, 0x73, 0x6f]
    ensures ScanPacket(s).Malformed? ==> ScanPacket(s).magic == s[..4]
    ensures ScanPacket(s) == Whole(MakePacket(p), 8 + |p|) <==> [0x66, 0x75, 0x73, 0x6f] + Frame(p) <= s
    ensures ScanPacket(s).Whole? ==>
              exists q: Bytes :: Framable(q) && ScanPacket(s) == Whole(MakePacket(q), 8 + |q|)
  {
    hide LE32, FromLE32;
    PacketOnTheWire(p);
    var e := Encode(MakePacket(p));
    if e <= s {
      assert s == e + s[|e|..];
      ShortRoundTrip(p, s[|e|..]);
    }
    if ScanPacket(s).Whole? {
      var n := FromLE32(s[4..8]);
      var q := s[8..8 + n];
      assert ScanPacket(s) == Whole(MakePacket(q), 8 + |q|);
      LE32OfFromLE32(s[4..8]);
      assert s[..8 + n] == s[..4] + s[4..8] + q;
      if ScanPacket(s) == Whole(MakePacket(p), 8 + |p|) {
        assert q == p && s[..8 + n] == e;
      }
    }
  }

  /** A verdict never changes when more bytes arrive. */
  lemma ScanStable(s: Bytes, more: Bytes)
    requires !ScanPacket(s).NeedMore?
    ensures ScanPacket(s + more) == ScanPacket(s)
  {
    assert (s + more)[..4] == s[..4] && (s + more)[4..8] == s[4..8];
    var n := FromLE32(s[4..8]);
    if |s| >= HEAD + n {
      assert (s + more)[HEAD..HEAD + n] == s[HEAD..HEAD + n];
    }
  }

  /** A packet is recognised when its last byte is there, not earlier. */
  lemma ScanNotEarlier(s: Bytes, k: nat)
    requires ScanPacket(s).Whole? && k < ScanPacket(s).size
    ensures ScanPacket(s[..k]).NeedMore?
  {
    var t := s[..k];
    if k >= HEAD {
      assert t[..4] == s[..4] && t[4..8] == s[4..8];
    }
  }

  lemma ShortRoundTrip(p: Bytes, rest: Bytes)
    requires Framable(p)
    ensures ScanPacket(Encode(MakePacket(p)) + rest) == Whole(MakePacket(p), HEAD + |p|)
    ensures |Encode(MakePacket(p))| == HEAD + |p|
  {
    var s := Encode(MakePacket(p)) + rest;
    assert s[..4] == MAGIC && s[4..8] == LE32(|p|);
    FromLE32OfLE32(|p|);
    assert s[HEAD..HEAD + |p|] == p;
  }

  /** A packet is received as it was made exactly if its payload is below 2^32 bytes. */
  lemma RoundTripIffShort(p: Bytes, rest: Bytes)
    ensures ScanPacket(Encode(MakePacket(p)) + rest) == Whole(MakePacket(p), |Encode(MakePacket(p))|) <==> Framable(p)
  {
    if Framable(p) {
      ShortRoundTrip(p, rest);
    } else {
      var n := |p| % 0x1_0000_0000;
      var s := Encode(MakePacket(p)) + rest;
      assert s[..4] == MAGIC && s[4..8] == LE32(n);
      FromLE32OfLE32(n);
    }
  }

  function EncodeAll(ps: seq<Bytes>): Bytes {
    if |ps| == 0 then [] else Encode(MakePacket(ps[0])) + EncodeAll(ps[1..])
  }

  /** Whoever reads a stream that starts with a packet can only find that packet. */
  lemma ScanOfSent(got: Bytes, rest: Bytes, p: Bytes, tail: Bytes)
    requires Framable(p) && got + rest == Encode(MakePacket(p)) + tail
    ensures match ScanPacket(got)
            case NeedMore => rest != []
            case Malformed(_) => false
            case Whole(q, size) => q == MakePacket(p) && (size == |got| ==> rest == tail)
  {
    ShortRoundTrip(p, tail);
    if ScanPacket(got).NeedMore? {
      assert got + [] == got;
    } else {
      ScanStable(got, rest);
      assert rest == (got + rest)[|got|..];
      assert tail == (Encode(MakePacket(p)) + tail)[HEAD + |p|..];
    }
  }

  datatype State = Start | Head | Body

  class RecvPacket {
    const reader: AsyncIo.Duplex
    var buf: array<byte>
    var state: State
    var offset: nat
    ghost var got: Bytes             // what this future has read

    constructor (reader: AsyncIo.Duplex)
      ensures Valid() && this.reader == reader && got == [] && fresh(buf)
    {
      this.reader := reader;
      buf := new byte[0];
      state, offset, got := Start, 0, [];
    }

    ghost predicate Valid()
      reads this, buf
    {
      Reading() && offset < HEAD + buf.Length && (state.Body? || buf.Length == HEAD ==> offset < buf.Length)
    }

    ghost predicate Reading()
      reads this, buf
    {
      && offset <= buf.Length
      && match state {
           case Start => (buf.Length == 0 && got == []) || (buf.Length == HEAD && got == buf[..offset])
           case Head => false
           case Body => 0 < buf.Length < 0x1_0000_0000 && got == MAGIC + LE32(buf.Length) + buf[..offset]
         }
    }

    /** The arms of the `match`, up to the read that follows them. */
    method Advance() returns (out: Option<Result<Packet>>)
      requires Reading()
      modifies this`buf, this`state, this`offset
      ensures out.None? ==> Valid() && buf.Length > 0 && ScanPacket(got).NeedMore?
      ensures out.Some? && out.value.Ok? ==> ScanPacket(got) == Whole(out.value.value, |got|)
      ensures out.Some? && out.value.Err? ==>
                |got| == HEAD && ScanPacket(got) == Malformed(got[..4]) && out.value.error == PacketHead(got[..4])
      ensures buf == old(buf) || fresh(buf)
      ensures state.Body? && old(state).Body? ==> offset == old(offset) && buf == old(buf)
    {
      if state.Start? && offset == HEAD {
        var head := buf[..];
        assert got == head;
        state := Head;
        if head[..4] != MAGIC {
          return Some(Err(PacketHead(head[..4])));
        }
        var len := FromLE32(head[4..8]);
        if len == 0 {
          return Some(Ok(EmptyPacket()));
        }
        LE32OfFromLE32(head[4..8]);
        buf, offset, state := new byte[len], 0, Body;
        assert got == MAGIC + LE32(buf.Length) + buf[..offset];
      } else if state.Start? && buf.Length == 0 {
        buf, offset := new byte[HEAD](i => 0), 0;
      } else if state.Body? && offset == buf.Length {
        BodyWhole();
        return Some(Ok(MakePacket(buf[..])));
      }
      BodyPartial();
      return None;
    }

    lemma BodyWhole()
      requires Reading() && state.Body? && offset == buf.Length
      ensures ScanPacket(got) == Whole(MakePacket(buf[..]), |got|)
    {
      FromLE32OfLE32(buf.Length);
      assert got[..4] == MAGIC && got[4..8] == LE32(buf.Length);
      assert got[HEAD..] == buf[..];
    }

    lemma BodyPartial()
      requires Reading() && offset < buf.Length
      ensures ScanPacket(got).NeedMore?
    {
      if state.Body? {
        FromLE32OfLE32(buf.Length);
        assert got[..4] == MAGIC && got[4..8] == LE32(buf.Length);
      }
    }

    /** The read that ends every turn of the loop; it says how to stop, if at all. */
    method ReadMore() returns (stop: Option<Poll<Packet>>)
      requires Valid() && buf.Length > 0
      modifies this`offset, this`got, buf, reader`rest, reader`taken, reader`stalls
      ensures old(got) <= got && got + reader.rest == old(got + reader.rest)
      ensures stop.None? ==> Reading() && |reader.rest| < |old(reader.rest)| && reader.stalls == old(reader.stalls)
      ensures stop == Some(Pending) || stop == Some(Ready(Err(Io))) ==> reader.stalls > old(reader.stalls)
      ensures reader.stalls >= old(reader.stalls)
      ensures stop.Some? ==>
                && Valid() && got == old(got)
                && match stop.value {
                     case Pending => true
                     case Ready(Ok(_)) => false
                     case Ready(Err(e)) => e == Io || (e == ConnectionReset && reader.rest == [])
                   }
    {
      var r := reader.PollReadInto(buf, offset, buf.Length);
      match r {
        case Pending => return Some(Pending);
        case Ready(Err(e)) => return Some(Ready(Err(e)));
        case Ready(Ok(n)) =>
          if n == 0 {
            return Some(Ready(Err(ConnectionReset)));
          }
          ghost var more := old(reader.rest)[..n];
          got := got + more;
          offset := offset + n;
          Assoc(MAGIC + LE32(buf.Length), old(buf[..offset]), more);
          Assoc(old(got), more, reader.rest);
          assert old(reader.rest) == more + reader.rest;
          return None;
      }
    }

    /**
     One poll. A packet is returned when the bytes read since the start are exactly that packet;
     a reset means that the stream ended before the packet did.
     */
    method Poll() returns (r: Poll<Packet>)
      requires Valid()
      modifies this`buf, this`state, this`offset, this`got, buf, reader`rest, reader`taken, reader`stalls
      ensures r.Pending? ==> Valid() && ScanPacket(got).NeedMore?
      ensures reader.stalls >= old(reader.stalls)
      ensures r.Pending? || r == Ready(Err(Io)) ==> reader.stalls > old(reader.stalls)
      ensures buf == old(buf) || fresh(buf)
      ensures old(got) <= got && got + reader.rest == old(got + reader.rest)
      ensures r.Ready? && r.result.Ok? ==> ScanPacket(got) == Whole(r.result.value, |got|)
      ensures r.Ready? && r.result.Err? ==>
                match r.result.error
                case PacketHead(magic) => ScanPacket(got) == Malformed(magic) && |got| == HEAD
                case ConnectionReset => ScanPacket(got).NeedMore? && reader.rest == []
                case e => e == Io
    {
      while true
        invariant Reading()
        invariant buf == old(buf) || fresh(buf)
        invariant old(got) <= got && got + reader.rest == old(got + reader.rest)
        invariant reader.stalls == old(reader.stalls)
        decreases |reader.rest|
      {
        var out := Advance();
        if out.Some? {
          return Ready(out.value);
        }
        var stop := ReadMore();
        if stop.Some? {
          return stop.value;
        }
      }
    }
  }

  class SendPacket {
    const writer: AsyncIo.Duplex
    const buf: Bytes
    var offset: nat
    ghost const before: Bytes        // what the writer had sent when this future was made

    constructor (writer: AsyncIo.Duplex, buf: Bytes)
      ensures Valid() && this.writer == writer && this.buf == buf && before == writer.sent
    {
      this.writer, this.buf, offset, before := writer, buf, 0, writer.sent;
    }

    ghost predicate Valid()
      reads this`offset, writer`sent
    {
      offset <= |buf| && writer.sent == before + buf[..offset]
    }

    /** One poll; the loop ends because a transport that is ready takes at least a byte. */
    method Poll() returns (r: Poll<()>)
      requires Valid()
      modifies this`offset, writer`sent, writer`stalls
      ensures Valid() && old(writer.sent) <= writer.sent
      ensures r.Ready? && r.result.Ok? ==> writer.sent == before + buf
      ensures r.Ready? && r.result.Err? ==> r.result.error == Io
      ensures !(r.Ready? && r.result.Ok?) ==> writer.stalls > old(writer.stalls)
    {
      while true
        invariant Valid() && old(writer.sent) <= writer.sent && writer.stalls == old(writer.stalls)
        decreases |buf| - offset
      {
        var w := writer.PollWriteSome(buf[offset..]);
        match w {
          case Pending => return Pending;
          case Ready(Err(e)) => return Ready(Err(e));
          case Ready(Ok(n)) =>
            assert buf[..offset + n] == buf[..offset] + buf[offset..][..n];
            Assoc(before, buf[..offset], buf[offset..][..n]);
            offset := offset + n;
        }
        if offset == |buf| {
          assert buf[..offset] == buf;
          return Ready(Ok(()));
        }
      }
    }
  }

  ghost predicate AllMade(out: seq<Packet>, ps: seq<Bytes>) {
    |out| <= |ps| && forall i :: 0 <= i < |out| ==> out[i] == MakePacket(ps[i])
  }

  lemma NextPacket(ps: seq<Bytes>, k: nat, tail: Bytes)
    requires k < |ps|
    ensures EncodeAll(ps[k..]) + tail == Encode(MakePacket(ps[k])) + (EncodeAll(ps[k + 1..]) + tail)
  {
    assert ps[k..][1..] == ps[k + 1..];
    Assoc(Encode(MakePacket(ps[k])), EncodeAll(ps[k + 1..]), tail);
  }

  /**
   Receives up to `count` packets, one future after the other, with at most `polls` polls. Packets
   sent back to back come out one by one, and nothing behind the last of them is read. All of them
   come out if there is a poll for each, and one for each time that the transport stood still.
   */
  method ReceiveMany(reader: AsyncIo.Duplex, count: nat, polls: nat, ghost ps: seq<Bytes>, ghost tail: Bytes)
    returns (out: seq<Packet>, stop: Option<Error>)
    requires AllFramable(ps) && count <= |ps| && reader.rest == EncodeAll(ps) + tail
    modifies reader`rest, reader`taken, reader`stalls
    ensures AllMade(out, ps) && |out| <= count
    ensures |out| == count ==> reader.rest == EncodeAll(ps[count..]) + tail
    ensures old(reader.stalls) <= reader.stalls
    ensures stop.Some? ==> stop.value == Io && reader.stalls > old(reader.stalls)
    ensures stop.None? && polls >= count + (reader.stalls - old(reader.stalls)) ==> |out| == count
  {
    hide ScanPacket, Encode, MakePacket, EncodeAll, RecvPacket.Reading;
    assert ps[0..] == ps;
    out, stop := [], None;
    var future := new RecvPacket(reader);
    var i := 0;
    while i < polls && |out| < count
      invariant |out| <= count && AllMade(out, ps) && stop.None?
      invariant fresh(future) && future.reader == reader && fresh(future.buf) && future.Valid()
      invariant future.got + reader.rest == EncodeAll(ps[|out|..]) + tail
      invariant |out| == count ==> future.got == []
      invariant old(reader.stalls) <= reader.stalls
      invariant i <= polls && i <= |out| + (reader.stalls - old(reader.stalls))
    {
      i := i + 1;
      ghost var p, behind := ps[|out|], EncodeAll(ps[|out| + 1..]) + tail;
      NextPacket(ps, |out|, tail);
      var r := future.Poll();
      ScanOfSent(future.got, reader.rest, p, behind);
      if r.Ready? {
        if r.result.Err? {
          stop := Some(r.result.error);
          return;
        }
        out := out + [r.result.value];
        future := new RecvPacket(reader);
      }
    }
  }
}
