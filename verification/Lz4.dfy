/** The compressing stream (src/core/compress/lz4/mod.rs), polled any number of times. */
module Lz4 {
  import opened Common
  import Framing
  import Buffer
  import AsyncIo
  import opened Lz4Spec

  class Lz4Compress {
    const wire: AsyncIo.Duplex
    const codec: BlockCodec

    // Writer
    var ebuf: Option<Bytes>          // the frame being written
    var woffset: nat                 // how much of it is written
    var compressedOffset: nat        // how much of the caller's buffer is compressed
    const ering: array<byte>
    var eringOffset: nat
    var encodeIns: seq<Place>        // the library's stream state behind lz4_encode_insptr

    // History of the writer
    ghost var writes: seq<Bytes>     // completed writes
    ghost var cur: Option<Bytes>     // the write that returned Pending
    ghost var blocks: seq<Bytes>     // blocks compressed so far
    ghost var frames: Bytes          // what has to go over the wire for them
    ghost var writeBroken: bool      // a write failed; the source must not be used any more

    // Reader
    var dbuf: array?<byte>           // the part of a frame being read: its size, or its payload
    var dneed: nat
    var doffset: nat
    var dinit: bool                  // the size is known
    const dring: array<byte>
    var dringOffset: nat
    var decodeIns: seq<Place>        // the library's stream state behind lz4_decode_insptr
    const rbuf: Buffer.Buffer        // decompressed bytes that did not fit the caller's buffer

    // History of the reader
    ghost var payloads: seq<Bytes>   // payloads decoded so far
    ghost var plain: seq<Bytes>      // the blocks they gave
    ghost var consumed: Bytes        // the wire bytes of those payloads
    ghost var delivered: Bytes       // bytes handed to the caller
    ghost var readBroken: bool       // a read failed; the source must not be used any more

    constructor (wire: AsyncIo.Duplex, codec: BlockCodec)
      requires Lawful(codec) && wire.sent == [] && wire.taken == []
      ensures ValidW() && !writeBroken && cur == None && writes == []
      ensures ValidR() && !readBroken && delivered == [] && plain == [] && fresh(dring) && fresh(rbuf) && dbuf == null
      ensures ering != dring
      ensures this.wire == wire && this.codec == codec
      ensures fresh(ering)
    {
      this.wire, this.codec := wire, codec;
      ebuf, woffset, compressedOffset, eringOffset, encodeIns := None, 0, 0, 0, [];
      ering := new byte[RING];
      dbuf, dneed, doffset, dinit, dringOffset, decodeIns := null, 0, 0, false, 0, [];
      dring := new byte[RING];
      rbuf := new Buffer.Buffer();
      payloads, plain, consumed, delivered, readBroken := [], [], [], [], false;
      writes, cur, blocks, frames, writeBroken := [], None, [], [], false;
    }

    // ---- Writing ----

    /** The blocks made so far and those to come are the cuts of all writes, this one included. */
    ghost predicate CutsInOrder(buf: Bytes)
      reads this`ebuf, this`compressedOffset, this`blocks, this`writes
    {
      && compressedOffset <= |buf|
      && (ebuf.None? ==> compressedOffset < |buf| || (compressedOffset == 0 && buf == []))
      && blocks + Uncut(buf, compressedOffset, ebuf.Some?) == Cuts(writes) + Chunks(buf)
    }

    ghost function Unwritten(): Bytes
      requires ebuf.Some? ==> woffset <= |ebuf.value|
      reads this`ebuf, this`woffset
    {
      if ebuf.Some? then ebuf.value[woffset..] else []
    }

    /** The ring holds the current lap of blocks and is where the specification has it. */
    ghost predicate RingValidW()
      reads this`eringOffset, this`encodeIns, this`blocks, ering
    {
      && ering.Length == RING
      && eringOffset == EncOffset(blocks)
      && encodeIns == EncHistory(blocks)
      && ering[..eringOffset] == EncLap(blocks)
    }

    /** Everything compressed is on the wire or in `ebuf`, in order and once. */
    ghost predicate FramesOut()
      reads this`ebuf, this`woffset, this`frames, wire`sent
    {
      && (ebuf.Some? ==> woffset < |ebuf.value|)
      && (ebuf.None? ==> woffset == 0)
      && wire.sent + Unwritten() == frames
    }

    ghost predicate InFlight(buf: Bytes)
      reads this`ebuf, this`woffset, this`compressedOffset, this`eringOffset, this`encodeIns
      reads this`blocks, this`frames, this`writes, wire`sent, ering
    {
      RingValidW() && Encoded(codec, blocks, frames) && FramesOut() && CutsInOrder(buf)
    }

    ghost predicate Idle()
      reads this`ebuf, this`woffset, this`compressedOffset, this`eringOffset, this`encodeIns
      reads this`blocks, this`frames, this`writes, wire`sent, ering
    {
      && RingValidW() && Encoded(codec, blocks, frames) && FramesOut()
      && ebuf.None? && compressedOffset == 0
      && blocks == Cuts(writes)
    }

    ghost predicate ValidW()
      reads this`ebuf, this`woffset, this`compressedOffset, this`eringOffset, this`encodeIns
      reads this`blocks, this`frames, this`writes, this`cur, wire`sent, ering
    {
      match cur
      case None => Idle()
      case Some(buf) => InFlight(buf) && ebuf.Some?
    }

    /**
     One poll of a write. After Pending it must be called again with the same buffer. A completed
     write appends its buffer to `writes`; with the invariant this says that exactly the frames
     of its blocks went to the wire.
     */
    method PollWrite(buf: Bytes) returns (r: Poll<nat>)
      requires ValidW() && !writeBroken
      requires cur == None || cur == Some(buf)
      modifies this`ebuf, this`woffset, this`compressedOffset, this`eringOffset, this`encodeIns, ering, wire`sent
      modifies wire`stalls
      modifies this`writes, this`cur, this`blocks, this`frames, this`writeBroken
      ensures old(wire.stalls) <= wire.stalls
      ensures r.Pending? ==> wire.stalls > old(wire.stalls)
      ensures writeBroken ==> wire.stalls > old(wire.stalls) || (r == Ready(Err(Error.Lz4Compress)) && buf == [])
      ensures !writeBroken ==> ValidW()
      ensures r.Pending? ==> !writeBroken && cur == Some(buf) && writes == old(writes)
      ensures r.Ready? && !writeBroken ==> r == Ready(Ok(|buf|)) && cur == None && writes == old(writes) + [buf]
      ensures writeBroken ==> writes == old(writes) && r.Ready? && (r.result == Ok(0) || r.result.Err?)
      ensures Encoded(codec, blocks, frames) && old(blocks) <= blocks <= Cuts(old(writes) + [buf])
      ensures old(wire.sent) <= wire.sent <= frames
    {
      hide Encoded, RingValidW, Cuts, Chunks, InFlight, CutsLeft, BytesLeft, FramesOut;
      StartOrResume(buf);
      cur := Some(buf);
      while true
        invariant !writeBroken && writes == old(writes) && cur == Some(buf)
        invariant InFlight(buf) && old(blocks) <= blocks
        invariant old(wire.sent) <= wire.sent && wire.stalls == old(wire.stalls)
        decreases CutsLeft(buf), BytesLeft()
      {
        var stop := WriteTurn(buf);
        if stop.Some? {
          return stop.value;
        }
      }
    }

    lemma StartOrResume(buf: Bytes)
      requires ValidW() && (cur == None || cur == Some(buf))
      ensures InFlight(buf)
    {
      assert buf[0..] == buf;
    }

    ghost function CutsLeft(buf: Bytes): nat
      reads this`ebuf, this`compressedOffset
    {
      (if compressedOffset <= |buf| then |buf| - compressedOffset else 0) + if ebuf.None? && buf == [] then 1 else 0
    }

    ghost function BytesLeft(): nat
      reads this`ebuf, this`woffset
    {
      if ebuf.Some? && woffset <= |ebuf.value| then |ebuf.value| - woffset else 0
    }

    /** What was cut so far is the beginning of what all writes are cut into. */
    lemma CutSoFar(buf: Bytes)
      requires InFlight(buf)
      ensures Encoded(codec, blocks, frames) && blocks <= Cuts(writes + [buf]) && wire.sent <= frames
    {
      CutsSnoc(writes, buf);
    }

    /** One turn of the loop: the next block is compressed, or some of the frame is written. */
    method WriteTurn(buf: Bytes) returns (stop: Option<Poll<nat>>)
      requires InFlight(buf) && cur == Some(buf) && !writeBroken
      modifies this`ebuf, this`woffset, this`compressedOffset, this`eringOffset, this`encodeIns, ering, wire`sent
      modifies wire`stalls
      modifies this`writes, this`cur, this`blocks, this`frames, this`writeBroken
      ensures old(wire.stalls) <= wire.stalls
      ensures Encoded(codec, blocks, frames) && old(blocks) <= blocks <= Cuts(old(writes) + [buf])
      ensures old(wire.sent) <= wire.sent <= frames
      ensures stop.None? ==>
                && InFlight(buf) && cur == Some(buf) && !writeBroken && writes == old(writes)
                && wire.stalls == old(wire.stalls)
                && (CutsLeft(buf) < old(CutsLeft(buf))
                    || (CutsLeft(buf) == old(CutsLeft(buf)) && BytesLeft() < old(BytesLeft())))
      ensures stop.Some? && !writeBroken ==> ValidW()
      ensures stop.Some? && stop.value.Pending? ==>
                !writeBroken && cur == Some(buf) && writes == old(writes) && wire.stalls > old(wire.stalls)
      ensures stop.Some? && stop.value.Ready? && !writeBroken ==>
                stop.value == Ready(Ok(|buf|)) && cur == None && writes == old(writes) + [buf]
      ensures writeBroken ==>
                && stop.Some? && writes == old(writes) && stop.value.Ready?
                && (stop.value.result == Ok(0) || stop.value.result.Err?)
                && (wire.stalls > old(wire.stalls) || (stop.value.result == Err(Error.Lz4Compress) && buf == []))
    {
      hide Encoded, RingValidW, Cuts, Chunks;
      CutSoFar(buf);
      if ebuf.None? {
        var failed := CompressNext(buf);
        if failed {
          writeBroken := true;
          return Some(Ready(Err(Error.Lz4Compress)));
        }
        CutSoFar(buf);
        return None;
      }
      var r := WriteSome();
      CutsSnoc(writes, buf);
      if r.Pending? {
        return Some(r);
      }
      if r.result.Err? || r.result.value == 0 {
        ebuf := None;
        writeBroken := true;
        return Some(r);
      }
      if ebuf.None? && compressedOffset == |buf| {
        Finish(buf);
        return Some(Ready(Ok(|buf|)));
      }
      return None;
    }

    method Finish(buf: Bytes)
      requires RingValidW() && Encoded(codec, blocks, frames) && FramesOut() && ebuf.None?
      requires blocks == Cuts(writes) + Chunks(buf)
      modifies this`compressedOffset, this`writes, this`cur
      ensures ValidW() && cur == None && writes == old(writes) + [buf]
    {
      hide Encoded, RingValidW;
      compressedOffset := 0;
      CutsSnoc(writes, buf);
      writes, cur := writes + [buf], None;
    }

    /** Offers the rest of the frame to the transport; a frame written in full is dropped. */
    method WriteSome() returns (w: Poll<nat>)
      requires FramesOut() && ebuf.Some?
      modifies this`ebuf, this`woffset, wire`sent, wire`stalls
      ensures wire.stalls == old(wire.stalls) + if w.Ready? && w.result.Ok? && w.result.value != 0 then 0 else 1
      ensures FramesOut() && old(wire.sent) <= wire.sent <= frames
      ensures ebuf.Some? ==> woffset < |ebuf.value|
      ensures w.Ready? && w.result.Ok? && w.result.value != 0 ==>
                ebuf.None? || (ebuf == old(ebuf) && woffset > old(woffset))
      ensures !(w.Ready? && w.result.Ok? && w.result.value != 0) ==> ebuf == old(ebuf) && woffset == old(woffset)
      ensures w.Ready? && w.result.Err? ==> w.result.error == Io
    {
      w := wire.PollWrite(ebuf.value[woffset..]);
      if w.Ready? && w.result.Ok? {
        var n := w.result.value;
        SentMore(old(wire.sent), ebuf.value, woffset, n);
        woffset := woffset + n;
        if woffset == |ebuf.value| {
          ebuf := None;
          woffset := 0;
        }
      }
    }

    /** Copies the next block to the ring and compresses it from there. */
    method CompressBlock(block: Bytes) returns (payload: Bytes)
      requires RingValidW() && |block| <= MAX_BLOCK
      modifies this`eringOffset, this`encodeIns, this`blocks, ering
      ensures payload == codec.enc(EncHistory(old(blocks)), EncOffset(old(blocks)), block)
      ensures payload == [] ==> blocks == old(blocks) && (Lawful(codec) ==> block == [])
      ensures payload != [] ==> RingValidW() && blocks == old(blocks) + [block]
    {
      var off := eringOffset;
      Buffer.CopyInto(block, ering, off);
      assert ering[off..off + |block|] == block;
      payload := codec.enc(encodeIns, off, ering[off..off + |block|]);
      if payload != [] {
        BlockAppended(codec, blocks, block);
        assert ering[..off + |block|] == old(ering[..off]) + block;
        encodeIns := encodeIns + [Place(off, block)];
        eringOffset := EncNext(off, |block|);
        blocks := blocks + [block];
      }
    }

    /** Cuts the next block off the caller's buffer, compresses it and frames it. */
    method CompressNext(buf: Bytes) returns (failed: bool)
      requires RingValidW() && Encoded(codec, blocks, frames) && FramesOut() && CutsInOrder(buf) && ebuf.None?
      modifies this`ebuf, this`compressedOffset, this`eringOffset, this`encodeIns, this`blocks, this`frames, ering
      ensures failed ==> blocks == old(blocks) && frames == old(frames) && ebuf.None? && buf == []
      ensures !failed ==> ebuf.Some? && RingValidW() && Encoded(codec, blocks, frames) && FramesOut() && CutsInOrder(buf)
      ensures !failed ==> woffset < |ebuf.value| && wire.sent <= frames
      ensures failed ==> wire.sent <= frames
      ensures !failed && buf != [] ==> compressedOffset > old(compressedOffset)
      ensures !failed && buf == [] ==> compressedOffset == 0
      ensures old(blocks) <= blocks
    {
      hide Encoded, Lawful, RingValidW, Cuts, Chunks, Uncut, EncHistory, EncOffset;
      var need := buf[compressedOffset..];
      var len := if |need| < MAX_BLOCK then |need| else |need| - (|need| - MAX_BLOCK);
      UncutNext(blocks, buf, compressedOffset);
      assert need[..len] == buf[compressedOffset..compressedOffset + len];
      LawfulWhenEncoded(codec, blocks, frames);
      var payload := CompressBlock(need[..len]);
      failed := payload == [];
      if !failed {
        EncodedSnoc(codec, old(blocks), frames, need[..len], payload);
        ebuf := Some(Framing.Frame(payload));
        frames := frames + Framing.Frame(payload);
        compressedOffset := compressedOffset + len;
      }
    }

    // ---- Reading ----

    /** The bytes of the frame that is only partly read. */
    ghost function Held(): Bytes
      requires dbuf != null ==> doffset <= dbuf.Length
      requires dinit ==> dneed < 0x1_0000_0000
      reads this`dbuf, this`dneed, this`doffset, this`dinit, dbuf
    {
      if dbuf == null then [] else if dinit then Framing.LE32(dneed) + dbuf[..doffset] else dbuf[..doffset]
    }

    ghost predicate ReadState()
      reads this`dbuf, this`dneed, this`doffset, this`dinit
    {
      && (dbuf == null ==> dneed == 0 && doffset == 0 && !dinit)
      && (dbuf != null && !dinit ==> dbuf.Length == 4 && dneed == 4 && doffset <= 4)
      && (dbuf != null && dinit ==>
            dbuf.Length == CompressBound(MAX_BLOCK) && 0 < dneed <= CompressBound(MAX_BLOCK) && doffset <= dneed)
      && dbuf != dring && dbuf != ering
    }

    /** Everything taken from the wire is decoded or held. */
    ghost predicate FramesIn()
      reads this`dbuf, this`dneed, this`doffset, this`dinit, this`consumed, dbuf, wire`taken
    {
      ReadState() && wire.taken == consumed + Held()
    }

    ghost predicate RingValidR()
      reads this`dringOffset, this`decodeIns, this`plain, dring
    {
      && dring.Length == RING
      && dringOffset == DecOffset(plain)
      && decodeIns == DecHistory(plain)
      && dring[..dringOffset] == DecLap(plain)
    }

    /** Everything decoded is delivered or kept for the next read, in order and once. */
    ghost predicate PlainOut()
      reads this`delivered, this`plain, rbuf
    {
      rbuf.Valid() && delivered + rbuf.Contents() == Flatten(plain)
    }

    ghost predicate ValidR()
      reads this`dbuf, this`dneed, this`doffset, this`dinit, this`consumed, dbuf, wire`taken
      reads this`dringOffset, this`decodeIns, this`plain, this`payloads, this`delivered, dring, rbuf
    {
      RingValidR() && DecodedAs(codec, payloads, plain, consumed) && FramesIn() && Resting() && PlainOut()
    }

    lemma AllDelivered()
      requires PlainOut() && rbuf.Contents() == []
      ensures delivered == Flatten(plain)
    {
    }

    lemma ValidRDecoded()
      requires ValidR()
      ensures DecodedAs(codec, payloads, plain, consumed) && Ahead()
    {
    }

    /** What every read keeps: bytes taken come off the front of the wire, and blocks decoded stay decoded. */
    twostate predicate Kept()
      reads this`dbuf, this`plain, this`payloads, this`consumed, this`delivered, wire`taken, wire`rest, wire`stalls
    {
      && old(wire.stalls) <= wire.stalls && old(plain) <= plain
      && old(wire.taken) <= wire.taken && wire.taken + wire.rest == old(wire.taken + wire.rest)
      && (dbuf == null || dbuf == old(dbuf) || fresh(dbuf))
      && DecodedAs(codec, payloads, plain, consumed) && Ahead()
    }

    /** Nothing was decoded that was not taken, and nothing delivered that was not decoded. */
    ghost predicate Ahead()
      reads this`plain, this`consumed, this`delivered, wire`taken
    {
      consumed <= wire.taken && delivered <= Flatten(plain)
    }

    twostate lemma StaysAhead()
      requires old(Ahead()) && old(wire.taken) <= wire.taken
      requires consumed == old(consumed) && delivered == old(delivered) && plain == old(plain)
      ensures Ahead()
    {
    }

    lemma ValidIsAhead()
      requires FramesIn() && PlainOut()
      ensures Ahead()
    {
    }

    /** What the answer of a read says about the stream. */
    twostate predicate Answered(new r: Poll<nat>)
      reads this, dbuf, dring, rbuf, wire
    {
      && Kept()
      && (r.Pending? || r == Ready(Err(Io)) ==> wire.stalls > old(wire.stalls))
      && (!readBroken ==> ValidR())
      && (readBroken ==> r.Ready? && (r.result == Ok(0) || r.result.Err?))
      && (r.Ready? && r.result.Err? ==>
            readBroken && (r.result.error == Io || (r.result.error == Lz4Decompress && InputRefused())))
    }

    /** An array that was not the stream's own does not become it. */
    twostate lemma KeptApart(a: array<byte>, new r: Poll<nat>)
      requires Answered(r) && a != old(dbuf)
      ensures a != dbuf
    {
    }

    /** Between polls no frame is complete but undecoded. */
    ghost predicate Resting()
      reads this`dbuf, this`doffset, this`dneed
    {
      dbuf != null ==> doffset < dneed
    }

    /** The wire has given all it had, and no complete frame of it is left. */
    ghost predicate WireAtEnd()
      reads this`consumed, wire`taken, wire`rest
    {
      wire.rest == [] && exists held: Bytes :: Framing.Partial(held) && wire.taken == consumed + held
    }

    /** And all that was decoded is delivered. */
    ghost predicate AtEnd()
      reads this`consumed, this`plain, this`delivered, wire`taken, wire`rest
    {
      WireAtEnd() && delivered == Flatten(plain)
    }

    /** The caller's buffer is none of the stream's own arrays. */
    ghost predicate Apart(rb: AsyncIo.ReadBuf)
      reads this`dbuf
    {
      rb.data != ering && rb.data != dring && rb.data != dbuf
    }

    /** The last arm of the loop: reads more of the size or of the payload. */
    method ReadMore() returns (r: Poll<nat>)
      requires FramesIn() && dbuf != null && doffset < dneed
      modifies this`dbuf, this`dneed, this`doffset, this`readBroken, dbuf, wire`rest, wire`taken, wire`stalls
      ensures wire.stalls == old(wire.stalls) + if r.Ready? && r.result.Ok? then 0 else 1
      ensures old(wire.taken) <= wire.taken
      ensures wire.taken + wire.rest == old(wire.taken + wire.rest)
      ensures dbuf == null || dbuf == old(dbuf)
      ensures r.Pending? ==> FramesIn() && dbuf == old(dbuf) && dneed == old(dneed) && doffset == old(doffset)
                             && readBroken == old(readBroken)
      ensures r.Ready? && r.result.Ok? && r.result.value > 0 ==>
                FramesIn() && readBroken == old(readBroken)
                && dbuf == old(dbuf) && dneed == old(dneed) && doffset > old(doffset)
      ensures r == Ready(Ok(0)) ==>
                && wire.rest == [] && wire.taken == old(wire.taken) && dbuf == null && WireAtEnd()
                && (readBroken <==> old(readBroken) || old(Held()) != [])
                && (old(Held()) == [] ==> FramesIn())
      ensures r.Ready? && r.result.Err? ==> r.result.error == Io && readBroken && dbuf == null
    {
      hide DecodedAs, RingValidR, FramesIn, WireAtEnd;
      HeldFits();
      r := wire.PollReadInto(dbuf, doffset, dneed);
      if r.Pending? {
        HeldGrew([]);
      } else if r.result.Err? {
        dbuf := null;
        readBroken := true;
      } else if r.result.value == 0 {
        EndsWithin();
        readBroken := readBroken || old(Held()) != [];
        dbuf, dneed, doffset := null, 0, 0;
        if old(Held()) == [] {
          HeldNothing();
        }
      } else {
        doffset := doffset + r.result.value;
        HeldGrew(old(wire.rest)[..r.result.value]);
      }
    }

    /** The wire has ended before the frame did. */
    twostate lemma EndsWithin()
      requires old(FramesIn()) && old(dbuf != null && doffset < dneed) && consumed == old(consumed)
      requires wire.taken == old(wire.taken) && wire.rest == []
      ensures WireAtEnd()
    {
      var held := old(Held());
      if old(dinit) {
        Framing.FromLE32OfLE32(old(dneed));
        assert held[..4] == Framing.LE32(old(dneed));
      }
      assert Framing.Partial(held) && wire.taken == consumed + held;
    }

    lemma HeldFits()
      requires FramesIn()
      ensures ReadState()
    {
    }

    /** More bytes of the frame are there. */
    twostate lemma HeldGrew(more: Bytes)
      requires old(FramesIn()) && dbuf == old(dbuf) && dbuf != null && dneed == old(dneed) && dinit == old(dinit)
      requires consumed == old(consumed) && doffset == old(doffset) + |more| <= dneed
      requires dbuf[..doffset] == old(dbuf[..doffset]) + more && wire.taken == old(wire.taken) + more
      ensures FramesIn()
    {
      Assoc(consumed, old(Held()), more);
      if dinit {
        Assoc(Framing.LE32(dneed), old(dbuf[..doffset]), more);
      }
    }

    /** Nothing of a frame was there, and nothing came. */
    twostate lemma HeldNothing()
      requires old(FramesIn()) && old(Held()) == [] && consumed == old(consumed) && wire.taken == old(wire.taken)
      requires dbuf == null && dneed == 0 && doffset == 0 && dinit == old(dinit)
      ensures FramesIn()
    {
    }

    /** The size is complete: checks it and makes room for the payload. */
    method StartBody() returns (bad: bool)
      requires FramesIn() && dbuf != null && !dinit && doffset == dneed
      modifies this`dbuf, this`dneed, this`doffset, this`dinit, this`readBroken
      ensures bad ==>
                && readBroken && dbuf == null && |old(Held())| == 4
                && !(0 < Framing.FromLE32(old(Held())) <= CompressBound(MAX_BLOCK)) && InputRefused()
      ensures !bad ==>
                FramesIn() && readBroken == old(readBroken) && dbuf != null && fresh(dbuf) && dinit && doffset == 0
    {
      hide DecodedAs;
      var size := dbuf[..];
      assert size == dbuf[..doffset];
      var need := Framing.FromLE32(size);
      bad := need <= 0 || need > CompressBound(MAX_BLOCK);
      if bad {
        assert wire.taken[|consumed|..] == size;
        dbuf := null;
        readBroken := true;
      } else {
        Framing.LE32OfFromLE32(size);
        dbuf := new byte[CompressBound(MAX_BLOCK)];
        dneed, doffset, dinit := need, 0, true;
        assert Framing.LE32(dneed) + dbuf[..doffset] == size;
      }
    }

    /** Decompresses into the ring, as the library does it, and moves on in the ring. */
    method DecompressBlock(payload: Bytes) returns (out: Option<Bytes>)
      requires RingValidR() && SafeDecoder(codec)
      modifies this`dringOffset, this`decodeIns, this`plain, dring
      ensures var b := codec.dec(DecHistory(old(plain)), DecOffset(old(plain)), payload);
              out == if b == Some([]) then None else b
      ensures out.None? ==> plain == old(plain)
      ensures out.Some? ==> RingValidR() && plain == old(plain) + [out.value]
    {
      var off := dringOffset;
      out := codec.dec(decodeIns, off, payload);
      if out.Some? {
        var b := out.value;
        if b == [] {
          out := None;
        } else {
          Buffer.CopyInto(b, dring, off);
          BlockAppended(codec, plain, b);
          assert dring[..off + |b|] == old(dring[..off]) + b;
          decodeIns := decodeIns + [Place(off, b)];
          dringOffset := DecNext(off, |b|);
          plain := plain + [b];
        }
      }
    }

    /** The payload is complete: decompresses it, or refuses it. */
    method FinishBody() returns (out: Option<Bytes>)
      requires RingValidR() && DecodedAs(codec, payloads, plain, consumed) && FramesIn()
      requires dbuf != null && dinit && doffset == dneed
      modifies this`dringOffset, this`decodeIns, this`plain, dring
      modifies this`dbuf, this`dneed, this`doffset, this`dinit, this`payloads, this`consumed, this`readBroken
      ensures out.None? ==>
                && readBroken && plain == old(plain) && payloads == old(payloads) && consumed == old(consumed)
                && dbuf == null && InputRefused()
      ensures out.Some? ==>
                && RingValidR() && DecodedAs(codec, payloads, plain, consumed) && FramesIn()
                && readBroken == old(readBroken)
                && dbuf == null && out.value != [] && plain == old(plain) + [out.value]
    {
      hide DecodedAs, RingValidR, DecHistory, DecOffset;
      var payload := dbuf[..dneed];
      assert Held() == Framing.Frame(payload);
      SafeWhenDecoded(codec, payloads, plain, consumed);
      out := DecompressBlock(payload);
      dbuf := null;
      if out.Some? {
        DecodedAsSnoc(codec, payloads, old(plain), consumed, payload, out.value);
        dinit, dneed, doffset := false, 0, 0;
        payloads, consumed := payloads + [payload], consumed + Framing.Frame(payload);
      } else {
        assert RejectedPayload(codec, plain, payload);
        assert wire.taken[|consumed|..] == Framing.Frame(payload);
        readBroken := true;
      }
    }

    /** Hands out what fits; the rest is kept for the next read. */
    method HandOut(b: Bytes, rb: AsyncIo.ReadBuf) returns (n: nat)
      requires rb.Valid() && rbuf.Valid() && rbuf.Contents() == []
      requires |plain| > 0 && plain[|plain| - 1] == b && delivered == Flatten(plain[..|plain| - 1])
      modifies rb, rb.data, rbuf, this`delivered
      ensures PlainOut() && Served(rb, n)
      ensures n == if |b| < old(rb.Remaining()) then |b| else old(rb.Remaining())
    {
      n := if rb.Remaining() < |b| then rb.Remaining() else |b|;
      rb.Put(b[..n]);
      if n < |b| {
        rbuf.PushBack(b[n..]);
      }
      delivered := delivered + b[..n];
      assert b == b[..n] + b[n..];
      Assoc(old(delivered), b[..n], b[n..]);
      assert delivered[|old(delivered)|..] == b[..n];
    }

    /**
     The arms that only read: turns until the payload is complete (None), or until the transport
     stops or the size is refused.
     */
    method FillFrame() returns (stop: Option<Poll<nat>>)
      requires FramesIn() && !readBroken
      modifies this`dbuf, this`dneed, this`doffset, this`dinit, this`readBroken, dbuf, wire`rest, wire`taken, wire`stalls
      ensures old(wire.stalls) <= wire.stalls
      ensures stop.Some? && (stop.value.Pending? || stop.value == Ready(Err(Io))) ==> wire.stalls > old(wire.stalls)
      ensures dbuf == null || dbuf == old(dbuf) || fresh(dbuf)
      ensures old(wire.taken) <= wire.taken
      ensures wire.taken + wire.rest == old(wire.taken + wire.rest)
      ensures stop.None? ==> FramesIn() && !readBroken && dbuf != null && dinit && doffset == dneed
      ensures stop == Some(Ready(Ok(0))) ==> WireAtEnd()
      ensures stop.Some? && !readBroken ==>
                FramesIn() && Resting() && (stop.value.Pending? || (stop.value == Ready(Ok(0)) && wire.rest == []))
      ensures stop.Some? && readBroken ==>
                || (stop.value == Ready(Ok(0)) && wire.rest == [])
                || stop.value == Ready(Err(Io))
                || (stop.value == Ready(Err(Lz4Decompress)) && InputRefused())
    {
      hide DecodedAs, InputRefused, WireAtEnd;
      while true
        invariant !readBroken && FramesIn() && consumed == old(consumed)
        invariant dbuf == null || dbuf == old(dbuf) || fresh(dbuf)
        invariant old(wire.taken) <= wire.taken && wire.stalls == old(wire.stalls)
        invariant wire.taken + wire.rest == old(wire.taken + wire.rest)
        decreases if dbuf == null then 2 else if dinit then 0 else 1, dneed - doffset
      {
        if dbuf == null {
          dbuf := new byte[4];
          dneed := 4;
        } else if doffset == dneed && !dinit {
          var bad := StartBody();
          if bad {
            return Some(Ready(Err(Lz4Decompress)));
          }
        } else if doffset == dneed && dinit {
          return None;
        } else {
          var r := ReadMore();
          if r.Pending? || r.result.Err? || r.result.value == 0 {
            return Some(r);
          }
        }
      }
    }

    /** One poll of a read: carried-over bytes first, else at most one frame of the wire. */
    method PollRead(rb: AsyncIo.ReadBuf) returns (r: Poll<nat>)
      requires ValidR() && !readBroken && rb.Valid() && Apart(rb)
      modifies this`dringOffset, this`decodeIns, this`plain, dring, rbuf, this`delivered, rb, rb.data
      modifies this`dbuf, this`dneed, this`doffset, this`dinit, this`payloads, this`consumed, this`readBroken
      modifies dbuf, wire`rest, wire`taken, wire`stalls
      ensures r.Pending? || r == Ready(Err(Io)) ==> wire.stalls > old(wire.stalls)
      ensures Kept()
      ensures rb.Valid()
      ensures !readBroken ==> ValidR()
      ensures readBroken ==> r.Ready? && NotServed(rb)
      ensures r.Pending? ==> NotServed(rb)
      ensures r.Ready? && r.result.Err? ==>
                && readBroken
                && (r.result.error == Io || (r.result.error == Lz4Decompress && InputRefused()))
      ensures r.Ready? && r.result.Ok? ==> Served(rb, r.result.value)
      ensures r == Ready(Ok(0)) ==> old(rb.Remaining()) == 0 || (wire.rest == [] && AtEnd())
    {
      hide DecodedAs, RingValidR, AtEnd;
      if !rbuf.IsEmpty() {
        var n := TakeCarried(rb);
        r := Ready(Ok(n));
      } else {
        r := PollDecodeRead(rb);
      }
    }

    method TakeCarried(rb: AsyncIo.ReadBuf) returns (n: nat)
      requires PlainOut() && rb.Valid()
      modifies this`delivered, rbuf, rb, rb.data
      ensures PlainOut() && Served(rb, n) && (n == 0 ==> old(rbuf.Contents()) == [] || old(rb.Remaining()) == 0)
    {
      ghost var given := rbuf.Contents();
      n := rb.TakeFrom(rbuf);
      delivered := delivered + given[..n];
      Assoc(old(delivered), given[..n], rbuf.Contents());
      assert given == given[..n] + rbuf.Contents();
      assert delivered[|old(delivered)|..] == given[..n];
    }

    /** Reads into the window `data[lo..hi]` through a fresh `ReadBuf`. */
    method PollReadInto(data: array<byte>, lo: nat, hi: nat) returns (r: Poll<nat>)
      requires ValidR() && !readBroken && lo <= hi <= data.Length
      requires data != ering && data != dring && data != dbuf
      modifies this`dringOffset, this`decodeIns, this`plain, dring, rbuf, this`delivered, data
      modifies this`dbuf, this`dneed, this`doffset, this`dinit, this`payloads, this`consumed, this`readBroken
      modifies dbuf, wire`rest, wire`taken, wire`stalls
      ensures Answered(r)
      ensures r.Ready? && r.result.Ok? ==>
                var n := r.result.value;
                && n <= hi - lo && old(delivered) <= delivered && |delivered| == |old(delivered)| + n
                && data[..lo + n] == old(data[..lo]) + delivered[|old(delivered)|..]
      ensures !(r.Ready? && r.result.Ok?) ==> delivered == old(delivered) && data[..] == old(data[..])
      ensures r == Ready(Ok(0)) ==> lo == hi || (wire.rest == [] && AtEnd())
    {
      hide DecodedAs, RingValidR, FramesIn, PlainOut, AtEnd;
      var window := new AsyncIo.ReadBuf(data, lo, hi);
      r := PollRead(window);
      if r.Ready? && r.result.Ok? {
        AsyncIo.WindowPrefix(old(data[..]), data[..], lo, delivered[|old(delivered)|..]);
      }
    }

    /** One call of the decoder: at most one frame is finished. */
    method PollDecodeRead(rb: AsyncIo.ReadBuf) returns (r: Poll<nat>)
      requires ValidR() && !readBroken && rb.Valid() && Apart(rb) && rbuf.Contents() == []
      modifies this`dringOffset, this`decodeIns, this`plain, dring, rbuf, this`delivered, rb, rb.data
      modifies this`dbuf, this`dneed, this`doffset, this`dinit, this`payloads, this`consumed, this`readBroken
      modifies dbuf, wire`rest, wire`taken, wire`stalls
      ensures r.Pending? || r == Ready(Err(Io)) ==> wire.stalls > old(wire.stalls)
      ensures Kept()
      ensures rb.Valid()
      ensures !readBroken ==> ValidR()
      ensures readBroken ==> r.Ready? && NotServed(rb)
      ensures r.Pending? ==> NotServed(rb)
      ensures r.Ready? && r.result.Err? ==>
                && readBroken
                && (r.result.error == Io || (r.result.error == Lz4Decompress && InputRefused()))
      ensures r.Ready? && r.result.Ok? ==> Served(rb, r.result.value)
      ensures r == Ready(Ok(0)) ==> old(rb.Remaining()) == 0 || (wire.rest == [] && AtEnd())
    {
      hide DecodedAs, RingValidR, PlainOut, InputRefused, Flatten, Buffer.Spliced, Held, WireAtEnd, Ahead;
      ValidRDecoded();
      AllDelivered();
      ValidIsAhead();
      var stop := FillFrame();
      if stop.Some? {
        assert NotServed(rb);
        rb.GainedNothing();
        r := stop.value;
        StaysAhead();
      } else {
        StaysAhead();
        r := Deliver(rb);
      }
    }

    /** The arm that ends the loop: the payload is decompressed and handed out. */
    method Deliver(rb: AsyncIo.ReadBuf) returns (r: Poll<nat>)
      requires RingValidR() && DecodedAs(codec, payloads, plain, consumed) && FramesIn() && PlainOut()
      requires !readBroken && rb.Valid() && Apart(rb) && rbuf.Contents() == []
      requires dbuf != null && dinit && doffset == dneed && Ahead()
      modifies this`dringOffset, this`decodeIns, this`plain, dring, rbuf, this`delivered, rb, rb.data
      modifies this`dbuf, this`dneed, this`doffset, this`dinit, this`payloads, this`consumed, this`readBroken
      ensures DecodedAs(codec, payloads, plain, consumed)
      ensures rb.Valid() && dbuf == null && old(plain) <= plain
      ensures readBroken ==> r == Ready(Err(Lz4Decompress)) && NotServed(rb) && InputRefused()
      ensures Ahead()
      ensures !readBroken ==> r.Ready? && r.result.Ok? && ValidR() && Served(rb, r.result.value)
      ensures r == Ready(Ok(0)) ==> old(rb.Remaining()) == 0
    {
      hide DecodedAs, RingValidR, InputRefused, FramesIn, Decoded, DecHistory, DecOffset, Buffer.Spliced, Held, Flatten, Ahead;
      assert delivered == Flatten(plain);
      var out := FinishBody();
      if out.None? {
        StaysAhead();
        r := Ready(Err(Lz4Decompress));
      } else {
        assert plain[..|plain| - 1] == old(plain);
        var n := HandOut(out.value, rb);
        ValidIsAhead();
        r := Ready(Ok(n));
      }
    }

    /** `n` bytes more were handed out through the caller's buffer. */
    twostate predicate Served(rb: AsyncIo.ReadBuf, n: nat)
      requires old(rb.Valid())
      reads this, rb, rb.data
    {
      && old(delivered) <= delivered && |delivered| == |old(delivered)| + n
      && rb.Gained(delivered[|old(delivered)|..])
    }

    twostate predicate NotServed(rb: AsyncIo.ReadBuf)
      reads this, rb, rb.data
    {
      rb.Untouched() && delivered == old(delivered)
    }

    /** The bytes after the last good frame are ones the reader must refuse. */
    ghost predicate InputRefused()
      reads this`consumed, this`plain, wire`taken
    {
      |consumed| <= |wire.taken| && consumed == wire.taken[..|consumed|]
      && Rejected(codec, plain, wire.taken[|consumed|..])
    }
  }

  lemma LawfulWhenEncoded(c: BlockCodec, blocks: seq<Bytes>, frames: Bytes)
    requires Encoded(c, blocks, frames)
    ensures Lawful(c)
  {
  }

  lemma SafeWhenDecoded(c: BlockCodec, payloads: seq<Bytes>, blocks: seq<Bytes>, frames: Bytes)
    requires DecodedAs(c, payloads, blocks, frames)
    ensures SafeDecoder(c)
  {
  }
}
