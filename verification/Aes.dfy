/** The encrypting stream over the compressing one (src/core/encryption/aes/mod.rs). */
module Aes {
  import opened Common
  import opened Framing
  import Buffer
  import AsyncIo
  import Lz4Spec
  import Lz4
  import opened AesSpec

  class AESEncryptor {
    const target: Lz4.Lz4Compress
    const cipher: Cipher

    var ebuf: Option<Bytes>          // a frame whose write returned Pending
    var epos: nat
    const dbuf: Buffer.Buffer        // decrypted bytes that did not fit the caller's buffer
    var rbuf: array?<byte>           // the part of a frame being read: its length, or its body
    var rpos: nat
    var dinit: bool                  // the length is known

    // History of the writer
    ghost var writes: seq<Bytes>
    ghost var cur: Option<Bytes>
    ghost var writeBroken: bool

    // History of the reader
    ghost var bodies: seq<Bytes>     // ciphertexts decrypted so far
    ghost var plain: seq<Bytes>      // the messages they gave
    ghost var consumed: Bytes        // the stream bytes of those frames
    ghost var delivered: Bytes
    ghost var readBroken: bool

    constructor (target: Lz4.Lz4Compress, cipher: Cipher)
      requires target.cur == None && target.writes == [] && target.delivered == [] && target.plain == []
      ensures WritesMatch() && cur == None && writes == [] && !writeBroken
      ensures ReadState() && FramesIn() && DecryptedAs(cipher, bodies, plain, consumed) && PlainOut()
      ensures !readBroken && delivered == [] && plain == []
      ensures this.target == target && this.cipher == cipher && rbuf == null && fresh(dbuf)
    {
      this.target, this.cipher := target, cipher;
      ebuf, epos, rbuf, rpos, dinit := None, 0, null, 0, false;
      dbuf := new Buffer.Buffer();
      writes, cur, writeBroken := [], None, false;
      bodies, plain, consumed, delivered, readBroken := [], [], [], [], false;
    }

    // ---- Writing ----

    /** The stream below has completed the frames of the completed writes, and works on the current one. */
    ghost predicate WritesMatch()
      reads this`ebuf, this`epos, this`writes, this`cur, target`writes, target`cur
    {
      && target.writes == AesFrames(cipher, writes)
      && match cur {
           case None => ebuf.None? && target.cur == None
           case Some(p) =>
             && ebuf.Some? && epos <= |ebuf.value|
             && ebuf.value[epos..] == AesFrame(cipher, p)
             && target.cur == Some(AesFrame(cipher, p))
         }
    }

    /**
     One poll of a write; after Pending it must be called again with the same buffer. The stream
     below completes a frame as a whole or not at all, so the source's write loop turns once.
     */
    method PollWrite(buf: Bytes) returns (r: Poll<nat>)
      requires WritesMatch() && target.ValidW() && !writeBroken && !target.writeBroken
      requires cur == None || cur == Some(buf)
      modifies this`ebuf, this`epos, this`writes, this`cur, this`writeBroken
      modifies target`ebuf, target`woffset, target`compressedOffset, target`eringOffset, target`encodeIns
      modifies target.ering, target.wire`sent, target.wire`stalls
      modifies target`writes, target`cur, target`blocks, target`frames, target`writeBroken
      ensures old(target.wire.stalls) <= target.wire.stalls
      ensures r.Pending? ==> target.wire.stalls > old(target.wire.stalls)
      ensures writeBroken ==> target.wire.stalls > old(target.wire.stalls)
      ensures !writeBroken ==> WritesMatch() && target.ValidW() && !target.writeBroken
      ensures r.Pending? ==> !writeBroken && cur == Some(buf) && writes == old(writes)
      ensures r.Ready? && !writeBroken ==> r == Ready(Ok(|buf|)) && cur == None && writes == old(writes) + [buf]
      ensures writeBroken ==> writes == old(writes) && r.Ready? && (r.result == Ok(0) || r.result.Err?)
      ensures Lz4Spec.Encoded(target.codec, target.blocks, target.frames)
      ensures old(target.blocks) <= target.blocks <= Lz4Spec.Cuts(AesFrames(cipher, old(writes) + [buf]))
      ensures old(target.wire.sent) <= target.wire.sent <= target.frames
    {
      hide Lz4Spec.Cuts, Lz4Spec.Encoded, AesFrame, Lz4.Lz4Compress.ValidW;
      AesFramesSnoc(cipher, writes, buf);
      MakesFrame(cipher, buf);
      ghost var frame := AesFrame(cipher, buf);
      var out: Bytes;
      if ebuf.Some? {
        out := ebuf.value[epos..];
      } else {
        var encrypted := cipher.enc(buf);
        var encryptedLen := |encrypted| % 0x1_0000_0000;
        out := LE32(encryptedLen) + encrypted[..encryptedLen];
      }
      assert out == frame;
      r := target.PollWrite(out);
      if r.Pending? {
        if ebuf.None? {
          ebuf, epos := Some(out), 0;
        }
        cur := Some(buf);
      } else if r.result.Err? || r.result.value == 0 {
        ebuf := None;
        writeBroken := true;
      } else {
        ebuf := None;
        writes, cur := writes + [buf], None;
        r := Ready(Ok(|buf|));
      }
    }

    // ---- Reading ----

    ghost function Held(): Bytes
      requires rbuf != null ==> rpos <= rbuf.Length
      requires rbuf != null && dinit ==> rbuf.Length < 0x1_0000_0000
      reads this`rbuf, this`rpos, this`dinit, rbuf
    {
      if rbuf == null then [] else if dinit then LE32(rbuf.Length) + rbuf[..rpos] else rbuf[..rpos]
    }

    ghost predicate ReadState()
      reads this`rbuf, this`rpos, this`dinit, target`dbuf
    {
      && (rbuf == null ==> rpos == 0 && !dinit)
      && (rbuf != null && !dinit ==> rbuf.Length == 4 && rpos <= 4)
      && (rbuf != null && dinit ==> rbuf.Length < 0x1_0000_0000 && rpos <= rbuf.Length)
      && (rbuf != null ==> rbuf != target.ering && rbuf != target.dring && rbuf != target.dbuf)
      && dbuf != target.rbuf
    }

    ghost predicate FramesIn()
      requires ReadState()
      reads this`rbuf, this`rpos, this`dinit, this`consumed, rbuf, target`delivered, target`dbuf
    {
      target.delivered == consumed + Held()
    }

    ghost predicate PlainOut()
      reads this`delivered, this`plain, dbuf
    {
      dbuf.Valid() && delivered + dbuf.Contents() == Flatten(plain)
    }

    /** Between polls no frame is complete but undecrypted, unless it is an empty one. */
    ghost predicate Resting()
      reads this`rbuf, this`rpos, this`dinit
    {
      rbuf != null ==> rpos < rbuf.Length || (dinit && rbuf.Length == 0)
    }

    ghost predicate ValidR()
      reads this`rbuf, this`rpos, this`dinit, this`consumed, this`bodies, this`plain, this`delivered, rbuf, dbuf
      reads target`delivered, target`dbuf
    {
      ReadState() && FramesIn() && DecryptedAs(cipher, bodies, plain, consumed) && PlainOut() && Resting()
    }

    /** A new frame: makes room for its length. */
    method StartSize()
      requires ReadState() && FramesIn() && rbuf == null
      modifies this`rbuf
      ensures ReadState() && FramesIn() && Resting() && rbuf != null && fresh(rbuf)
    {
      rbuf := new byte[4](i => 0);
      assert rbuf[..rpos] == [];
    }

    /** The length is complete: makes room for the body, whatever the length says. */
    method StartBody()
      requires ReadState() && FramesIn() && rbuf != null && !dinit && rpos == 4
      modifies this`rbuf, this`rpos, this`dinit
      ensures ReadState() && FramesIn() && fresh(rbuf) && rbuf != null && dinit && rpos == 0
    {
      var size := rbuf[..];
      assert size == rbuf[..rpos];
      LE32OfFromLE32(size);
      rbuf := new byte[FromLE32(size)];
      rpos, dinit := 0, true;
      assert LE32(rbuf.Length) + rbuf[..rpos] == size;
    }

    /** One read from the stream below, into what is left of the frame. */
    method ReadMore() returns (r: Poll<nat>)
      requires ReadState() && FramesIn() && Resting() && rbuf != null && target.ValidR() && !target.readBroken
      modifies this`rbuf, this`rpos, this`dinit, this`readBroken, rbuf
      modifies target`dringOffset, target`decodeIns, target`plain, target.dring, target.rbuf, target`delivered
      modifies target`dbuf, target`dneed, target`doffset, target`dinit, target`payloads, target`consumed, target`readBroken
      modifies target.dbuf, target.wire`rest, target.wire`taken, target.wire`stalls
      ensures rbuf == null || rbuf == old(rbuf)
      ensures target.Answered(r)
      ensures r.Pending? || (r.Ready? && r.result.Ok? && r.result.value > 0) ==>
                && ReadState() && FramesIn() && rbuf == old(rbuf) && dinit == old(dinit) && readBroken == old(readBroken)
                && rpos == old(rpos) + (if r.Pending? then 0 else r.result.value)
      ensures r == Ready(Ok(0)) ==>
                && rbuf == null && (readBroken <==> old(readBroken) || old(ReadHeld()) != [] || target.readBroken)
                && (readBroken || (ReadState() && FramesIn()))
                && (target.wire.rest == [] || EmptyFrame()) && (FramesAtEnd() || EmptyFrame())
      ensures r.Ready? && r.result.Err? ==> readBroken && rbuf == null
    {
      hide FramesIn, EmptyFrame, ReadState, FramesAtEnd, Lz4.Lz4Compress.ValidR, Lz4.Lz4Compress.Answered, Lz4.Lz4Compress.AtEnd;
      HeldApart();
      r := target.PollReadInto(rbuf, rpos, rbuf.Length);
      target.KeptApart(rbuf, r);
      if r.Pending? {
        HeldGrew([]);
      } else if r.result.Err? {
        readBroken := true;
        rbuf := null;
      } else if r.result.value == 0 {
        if rpos == rbuf.Length {
          WaitsForNothing();
        } else {
          EndsWithin();
        }
        ghost var held := old(ReadHeld());
        readBroken := readBroken || held != [] || target.readBroken;
        rbuf := null;
        if held == [] {
          HeldNothing();
        }
      } else {
        rpos := rpos + r.result.value;
        HeldGrew(target.delivered[|old(target.delivered)|..]);
      }
    }

    /** `Held`, for a frame that is being read. */
    ghost function ReadHeld(): Bytes
      requires ReadState()
      reads this`rbuf, this`rpos, this`dinit, rbuf, target`dbuf
    {
      Held()
    }

    lemma HeldApart()
      requires ReadState() && rbuf != null
      ensures rpos <= rbuf.Length && rbuf != target.ering && rbuf != target.dring && rbuf != target.dbuf
    {
    }

    /** More bytes of the frame are there. */
    twostate lemma HeldGrew(more: Bytes)
      requires old(ReadState() && FramesIn()) && rbuf == old(rbuf) && rbuf != null && dinit == old(dinit)
      requires consumed == old(consumed) && rpos == old(rpos) + |more| <= rbuf.Length && rbuf != target.dbuf
      requires rbuf[..rpos] == old(rbuf[..rpos]) + more && target.delivered == old(target.delivered) + more
      ensures ReadState() && FramesIn()
    {
      Assoc(consumed, old(Held()), more);
      if dinit {
        Assoc(LE32(rbuf.Length), old(rbuf[..rpos]), more);
      }
    }

    /** Nothing of a frame was there, and nothing came. */
    twostate lemma HeldNothing()
      requires old(ReadState() && FramesIn() && ReadHeld() == []) && consumed == old(consumed)
      requires rbuf == null && rpos == old(rpos) && dinit == old(dinit) && target.delivered == old(target.delivered)
      ensures ReadState() && FramesIn()
    {
    }

    /** The stream below is at its end, and no complete frame of it is left. */
    ghost predicate FramesAtEnd()
      reads this`consumed, target`consumed, target`plain, target`delivered, target.wire`taken, target.wire`rest
    {
      target.AtEnd() && exists held: Bytes :: Partial(held) && target.delivered == consumed + held
    }

    /** And all that was decrypted is delivered. */
    ghost predicate AtEnd()
      reads this`consumed, this`plain, this`delivered
      reads target`consumed, target`plain, target`delivered, target.wire`taken, target.wire`rest
    {
      FramesAtEnd() && delivered == Flatten(plain)
    }

    /** The stream below has ended before the frame did. */
    twostate lemma EndsWithin()
      requires old(ReadState() && FramesIn() && rbuf != null && rpos < rbuf.Length) && consumed == old(consumed)
      requires target.delivered == old(target.delivered) && target.AtEnd()
      ensures FramesAtEnd()
    {
      hide Lz4.Lz4Compress.AtEnd;
      var held := old(ReadHeld());
      if old(dinit) {
        FromLE32OfLE32(old(rbuf.Length));
        assert held[..4] == LE32(old(rbuf.Length));
      }
      assert Partial(held) && target.delivered == consumed + held;
    }

    /** A frame whose body is empty waits for bytes that it does not need. */
    twostate lemma WaitsForNothing()
      requires old(ReadState() && FramesIn() && Resting() && rbuf != null) && old(rpos == rbuf.Length)
      requires consumed == old(consumed) && old(target.delivered) <= target.delivered
      ensures EmptyFrame()
    {
      assert old(target.delivered) == consumed + LE32(0);
    }

    /** One turn of the loop: the room for a body whose length is complete, and one read. */
    method FillTurn() returns (stop: Option<Poll<nat>>)
      requires ReadState() && FramesIn() && !readBroken && rbuf != null && (Resting() || (!dinit && rpos == rbuf.Length))
      requires target.ValidR() && !target.readBroken
      modifies this`rbuf, this`rpos, this`dinit, this`readBroken, rbuf
      modifies target`dringOffset, target`decodeIns, target`plain, target.dring, target.rbuf, target`delivered
      modifies target`dbuf, target`dneed, target`doffset, target`dinit, target`payloads, target`consumed, target`readBroken
      modifies target.dbuf, target.wire`rest, target.wire`taken, target.wire`stalls
      ensures rbuf == null || rbuf == old(rbuf) || fresh(rbuf)
      ensures target.Kept()
      ensures stop.None? ==>
                && ReadState() && FramesIn() && !readBroken && rbuf != null && target.ValidR() && !target.readBroken
                && if dinit == old(dinit) then rbuf == old(rbuf) && rpos > old(rpos) else dinit
      ensures stop.Some? ==> Stops(stop.value, old(target.wire.stalls))
    {
      hide Lz4.Lz4Compress.ValidR, Lz4.Lz4Compress.InputRefused, Lz4.Lz4Compress.Ahead, Lz4Spec.DecodedAs, FramesAtEnd;
      hide EmptyFrame, Held, ReadHeld, FramesIn;
      if !dinit && rpos == rbuf.Length {
        StartBody();
      }
      var r := ReadMore();
      if r.Pending? || r.result.Err? || r.result.value == 0 {
        stop := Some(r);
      } else {
        stop := None;
      }
    }

    /** What an answer says that ends the collecting of a frame. */
    ghost predicate Stops(r: Poll<nat>, stalls: nat)
      reads this, rbuf, dbuf, target, target.dbuf, target.dring, target.rbuf, target.wire
    {
      && (r.Pending? || r == Ready(Err(Io)) ==> target.wire.stalls > stalls)
      && (!target.readBroken ==> target.ValidR())
      && (target.readBroken ==> readBroken)
      && (!readBroken ==> ReadState() && FramesIn() && Resting())
      && (r.Pending? ==> !readBroken)
      && (r.Pending? || r == Ready(Ok(0)) || r.result.Err?)
      && (r == Ready(Ok(0)) ==> (target.wire.rest == [] || EmptyFrame()) && (FramesAtEnd() || EmptyFrame()))
      && (r.Ready? && r.result.Err? ==>
            readBroken && (r.result.error == Io || (r.result.error == Lz4Decompress && target.InputRefused())))
    }

    /** Turns of the loop until the body is complete (None) or the stream below stops. */
    method FillFrame() returns (stop: Option<Poll<nat>>)
      requires ReadState() && FramesIn() && Resting() && !readBroken && target.ValidR() && !target.readBroken
      modifies this`rbuf, this`rpos, this`dinit, this`readBroken, rbuf
      modifies target`dringOffset, target`decodeIns, target`plain, target.dring, target.rbuf, target`delivered
      modifies target`dbuf, target`dneed, target`doffset, target`dinit, target`payloads, target`consumed, target`readBroken
      modifies target.dbuf, target.wire`rest, target.wire`taken, target.wire`stalls
      ensures rbuf == null || rbuf == old(rbuf) || fresh(rbuf)
      ensures target.Kept()
      ensures stop.None? ==>
                && ReadState() && FramesIn() && !readBroken && rbuf != null && dinit && rpos == rbuf.Length
                && target.ValidR() && !target.readBroken
      ensures stop.Some? ==> Stops(stop.value, old(target.wire.stalls))
    {
      hide Lz4.Lz4Compress.ValidR, Lz4.Lz4Compress.Ahead, Lz4Spec.DecodedAs, Stops, Held, FramesIn;
      target.ValidRDecoded();
      if rbuf == null {
        StartSize();
      }
      while true
        invariant ReadState() && FramesIn() && !readBroken && rbuf != null && consumed == old(consumed)
        invariant Resting() || (dinit && rpos == rbuf.Length) || (!dinit && rpos == 4)
        invariant rbuf == old(rbuf) || fresh(rbuf)
        invariant target.ValidR() && !target.readBroken
        invariant target.Kept()
        decreases if dinit then 0 else 1, rbuf.Length - rpos
      {
        if dinit && rpos == rbuf.Length {
          return None;
        }
        ghost var stalls := target.wire.stalls;
        stop := FillTurn();
        if stop.Some? {
          StallsSince(stop.value, stalls, old(target.wire.stalls));
          return;
        }
      }
    }

    lemma StallsSince(r: Poll<nat>, later: nat, earlier: nat)
      requires Stops(r, later) && earlier <= later
      ensures Stops(r, earlier)
    {
    }

    /** The body is complete: decrypts it, or fails. */
    method FinishBody() returns (out: Option<Bytes>)
      requires ReadState() && FramesIn() && DecryptedAs(cipher, bodies, plain, consumed)
      requires rbuf != null && dinit && rpos == rbuf.Length
      modifies this`rbuf, this`rpos, this`dinit, this`bodies, this`plain, this`consumed, this`readBroken
      ensures rbuf == null
      ensures out.None? ==>
                && readBroken && bodies == old(bodies) && plain == old(plain) && consumed == old(consumed)
                && BodyRefused()
      ensures out.Some? ==>
                && ReadState() && FramesIn() && DecryptedAs(cipher, bodies, plain, consumed) && readBroken == old(readBroken)
                && plain == old(plain) + [out.value]
    {
      hide DecryptedAs;
      var body := rbuf[..];
      assert body == rbuf[..rpos];
      assert target.delivered == consumed + Frame(body);
      out := cipher.dec(body);
      rbuf, dinit, rpos := null, false, 0;
      if out.Some? {
        DecryptedAsSnoc(cipher, bodies, plain, consumed, body);
        bodies, plain, consumed := bodies + [body], plain + [out.value], consumed + Frame(body);
      } else {
        readBroken := true;
      }
    }

    /** A complete frame follows the good ones that the cipher does not accept. */
    ghost predicate BodyRefused()
      reads this`consumed, target`delivered
    {
      exists body :: Framable(body) && target.delivered == consumed + Frame(body) && cipher.dec(body) == None
    }

    /** Hands out what fits; the rest is kept for the next read. */
    method HandOut(p: Bytes, rb: AsyncIo.ReadBuf) returns (n: nat)
      requires rb.Valid() && dbuf.Valid() && dbuf.Contents() == []
      requires |plain| > 0 && plain[|plain| - 1] == p && delivered == Flatten(plain[..|plain| - 1])
      modifies rb, rb.data, dbuf, this`delivered
      ensures PlainOut() && Served(rb, n)
      ensures n == 0 ==> p == [] || old(rb.Remaining()) == 0
    {
      n := if rb.Remaining() >= |p| then |p| else rb.Remaining();
      rb.Put(p[..n]);
      if n < |p| {
        dbuf.PushBack(p[n..]);
      }
      delivered := delivered + p[..n];
      assert p == p[..n] + p[n..];
      Assoc(old(delivered), p[..n], p[n..]);
      assert delivered[|old(delivered)|..] == p[..n];
    }

    /** One poll of a read: carried-over bytes first, else at most one frame. */
    method PollRead(rb: AsyncIo.ReadBuf) returns (r: Poll<nat>)
      requires ValidR() && !readBroken && target.ValidR() && !target.readBroken
      requires rb.Valid() && Apart(rb)
      modifies this`rbuf, this`rpos, this`dinit, this`bodies, this`plain, this`consumed, this`delivered, this`readBroken
      modifies rbuf, dbuf, rb, rb.data
      modifies target`dringOffset, target`decodeIns, target`plain, target.dring, target.rbuf, target`delivered
      modifies target`dbuf, target`dneed, target`doffset, target`dinit, target`payloads, target`consumed, target`readBroken
      modifies target.dbuf, target.wire`rest, target.wire`taken, target.wire`stalls
      ensures r.Pending? || r == Ready(Err(Io)) ==> target.wire.stalls > old(target.wire.stalls)
      ensures !target.readBroken ==> target.ValidR()
      ensures DecryptedAs(cipher, bodies, plain, consumed)
      ensures rbuf == null || rbuf == old(rbuf) || fresh(rbuf)
      ensures rb.Valid() && old(plain) <= plain
      ensures target.Kept()
      ensures !readBroken ==> ValidR() && target.ValidR() && !target.readBroken
      ensures r.Ready? && r.result.Ok? ==> Served(rb, r.result.value)
      ensures !(r.Ready? && r.result.Ok?) ==> NotServed(rb)
      ensures readBroken ==> r.Ready? && NotServed(rb)
      ensures r.Ready? && r.result.Err? ==> readBroken && ErrorExplained(r.result.error)
      ensures r == Ready(Ok(0)) ==>
                || old(rb.Remaining()) == 0 || (target.wire.rest == [] && AtEnd()) || EmptyFrame()
                || (!readBroken && plain == old(plain) + [[]])
    {
      hide Lz4.Lz4Compress.ValidR, Lz4.Lz4Compress.InputRefused, Lz4.Lz4Compress.Ahead, Lz4Spec.DecodedAs;
      hide BodyRefused, DecryptedAs, EmptyFrame, FramesIn, AtEnd;
      target.ValidRDecoded();
      if !dbuf.IsEmpty() {
        var n := TakeCarried(rb);
        r := Ready(Ok(n));
      } else {
        r := PollDecryptRead(rb);
      }
    }

    /** One call of the decryptor: at most one frame is finished. */
    method PollDecryptRead(rb: AsyncIo.ReadBuf) returns (r: Poll<nat>)
      requires ValidR() && !readBroken && target.ValidR() && !target.readBroken
      requires rb.Valid() && Apart(rb) && dbuf.Contents() == []
      modifies this`rbuf, this`rpos, this`dinit, this`bodies, this`plain, this`consumed, this`delivered, this`readBroken
      modifies rbuf, dbuf, rb, rb.data
      modifies target`dringOffset, target`decodeIns, target`plain, target.dring, target.rbuf, target`delivered
      modifies target`dbuf, target`dneed, target`doffset, target`dinit, target`payloads, target`consumed, target`readBroken
      modifies target.dbuf, target.wire`rest, target.wire`taken, target.wire`stalls
      ensures r.Pending? || r == Ready(Err(Io)) ==> target.wire.stalls > old(target.wire.stalls)
      ensures !target.readBroken ==> target.ValidR()
      ensures DecryptedAs(cipher, bodies, plain, consumed)
      ensures rbuf == null || rbuf == old(rbuf) || fresh(rbuf)
      ensures rb.Valid() && old(plain) <= plain
      ensures target.Kept()
      ensures !readBroken ==> ValidR() && target.ValidR() && !target.readBroken
      ensures r.Ready? && r.result.Ok? ==> Served(rb, r.result.value)
      ensures !(r.Ready? && r.result.Ok?) ==> NotServed(rb)
      ensures readBroken ==> r.Ready? && NotServed(rb)
      ensures r.Ready? && r.result.Err? ==> readBroken && ErrorExplained(r.result.error)
      ensures r == Ready(Ok(0)) ==>
                || old(rb.Remaining()) == 0 || (target.wire.rest == [] && AtEnd()) || EmptyFrame()
                || (!readBroken && plain == old(plain) + [[]])
    {
      hide Lz4.Lz4Compress.ValidR, Lz4.Lz4Compress.InputRefused, Lz4.Lz4Compress.Ahead, Lz4Spec.DecodedAs, Buffer.Spliced;
      hide BodyRefused, DecryptedAs, EmptyFrame, FramesIn, FramesAtEnd;
      var stop := FillFrame();
      if stop.Some? {
        assert NotServed(rb);
        rb.GainedNothing();
        r := stop.value;
      } else {
        r := Deliver(rb);
      }
    }

    method TakeCarried(rb: AsyncIo.ReadBuf) returns (n: nat)
      requires PlainOut() && rb.Valid()
      modifies this`delivered, dbuf, rb, rb.data
      ensures PlainOut() && Served(rb, n) && (n == 0 ==> old(dbuf.Contents()) == [] || old(rb.Remaining()) == 0)
    {
      ghost var given := dbuf.Contents();
      n := rb.TakeFrom(dbuf);
      delivered := delivered + given[..n];
      Assoc(old(delivered), given[..n], dbuf.Contents());
      assert given == given[..n] + dbuf.Contents();
      assert delivered[|old(delivered)|..] == given[..n];
    }

    method Deliver(rb: AsyncIo.ReadBuf) returns (r: Poll<nat>)
      requires ReadState() && FramesIn() && DecryptedAs(cipher, bodies, plain, consumed) && PlainOut() && dbuf.Contents() == []
      requires rbuf != null && dinit && rpos == rbuf.Length && rb.Valid() && Apart(rb) && !readBroken
      modifies this`rbuf, this`rpos, this`dinit, this`bodies, this`plain, this`consumed, this`delivered, this`readBroken
      modifies dbuf, rb, rb.data
      ensures DecryptedAs(cipher, bodies, plain, consumed)
      ensures rb.Valid() && rbuf == null && old(plain) <= plain
      ensures readBroken ==> r == Ready(Err(AesUnpad)) && NotServed(rb) && BodyRefused()
      ensures !readBroken ==> r.Ready? && r.result.Ok? && ValidR() && Served(rb, r.result.value)
      ensures r == Ready(Ok(0)) ==> old(rb.Remaining()) == 0 || plain == old(plain) + [[]]
    {
      hide DecryptedAs, BodyRefused, FramesIn, Buffer.Spliced, Held, Flatten;
      assert delivered == Flatten(plain);
      var out := FinishBody();
      if out.None? {
        r := Ready(Err(AesUnpad));
      } else {
        assert plain[..|plain| - 1] == old(plain);
        var n := HandOut(out.value, rb);
        r := Ready(Ok(n));
      }
    }

    /** The caller's buffer is none of the streams' own arrays. */
    ghost predicate Apart(rb: AsyncIo.ReadBuf)
      reads this`rbuf, target`dbuf
    {
      rb.data != rbuf && target.Apart(rb)
    }

    ghost predicate ErrorExplained(e: Error)
      reads this`consumed, target`delivered, target`consumed, target`plain, target`readBroken, target.wire`taken
    {
      && (e == AesUnpad ==> BodyRefused() && !target.readBroken)
      && (e == Lz4Decompress ==> target.InputRefused())
      && (e == Io || e == AesUnpad || e == Lz4Decompress)
    }

    /** `n` bytes more were handed out through the caller's buffer. */
    twostate predicate Served(rb: AsyncIo.ReadBuf, n: nat)
      requires old(rb.Valid())
      reads this, rb, rb.data
    {
      && old(delivered) <= delivered && |delivered| == |old(delivered)| + n
      && rb.Gained(delivered[|old(delivered)|..])
    }

    twostate predicate NotServed(rb: AsyncIo.ReadBuf)
      reads this, rb, rb.data
    {
      rb.Untouched() && delivered == old(delivered)
    }

    /** The frame being read says that its ciphertext is empty. */
    ghost predicate EmptyFrame()
      reads this`consumed, target`delivered
    {
      consumed + LE32(0) <= target.delivered
    }
  }

  lemma MakesFrame(c: Cipher, p: Bytes)
    ensures var e := c.enc(p);
            AesFrame(c, p) == LE32(|e| % 0x1_0000_0000) + e[..|e| % 0x1_0000_0000] && AesFrame(c, p) != []
  {
  }
}
