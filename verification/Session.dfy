/**
 One direction of a connection: an encryptor over a compressor at each end, and a transport that
 moves any number of bytes at any time. Every run is a sequence of the three turns below.
 */
module Session {
  import opened Common
  import Framing
  import AsyncIo
  import opened Lz4Spec
  import Lz4
  import opened AesSpec
  import Aes
  import opened EndToEnd

  /** A poll of the write of the next message, a move of the transport, or a poll of a read of so many bytes. */
  datatype Turn = Write | Carry(n: nat) | Read(size: nat)

  function Writes(turns: seq<Turn>): nat {
    if |turns| == 0 then 0 else Writes(turns[..|turns| - 1]) + if turns[|turns| - 1].Write? then 1 else 0
  }

  function Reads(turns: seq<Turn>): nat {
    if |turns| == 0 then 0 else Reads(turns[..|turns| - 1]) + if turns[|turns| - 1].Read? then 1 else 0
  }

  class Session {
    const messages: seq<Bytes>
    const a: Aes.AESEncryptor        // the end that writes
    const b: Aes.AESEncryptor        // the end that reads
    var next: nat                    // completed writes

    ghost predicate Apart()
      reads this`next, b`rbuf, b.target`dbuf
    {
      && a != b && a.target != b.target && a.target.wire != b.target.wire
      && a.target.ering != b.rbuf && a.target.ering != b.target.dring && a.target.ering != b.target.dbuf
      && a.cipher == b.cipher && a.target.codec == b.target.codec
      && LawfulCipher(a.cipher) && Carriable(a.cipher, messages)
      && NonEmpty(messages)
    }

    /** What left the writer is a prefix of the blocks of all messages. */
    ghost predicate SentOk()
      reads a.target`blocks, a.target`frames, a.target.wire`sent
    {
      && Encoded(a.target.codec, a.target.blocks, a.target.frames)
      && a.target.blocks <= Cuts(AesFrames(a.cipher, messages))
      && a.target.wire.sent <= a.target.frames
    }

    ghost predicate WriterOk()
      reads this`next, a`ebuf, a`epos, a`writes, a`cur, a`writeBroken
      reads a.target`ebuf, a.target`woffset, a.target`compressedOffset, a.target`eringOffset, a.target`encodeIns
      reads a.target.ering, a.target.wire`sent
      reads a.target`writes, a.target`cur, a.target`blocks, a.target`frames, a.target`writeBroken
    {
      && a.WritesMatch() && a.target.ValidW() && !a.target.writeBroken
      && next <= |messages| && a.writes == messages[..next]
      && (a.cur == None || (next < |messages| && a.cur == Some(messages[next])))
    }

    ghost predicate LinkOk()
      reads a.target.wire`sent, b.target.wire`taken, b.target.wire`rest
    {
      b.target.wire.taken + b.target.wire.rest <= a.target.wire.sent
    }

    ghost predicate ReaderOk()
      reads b`rbuf, b`rpos, b`dinit, b`bodies, b`plain, b`consumed, b`delivered, b`readBroken, b.rbuf, b.dbuf
      reads b.target`dringOffset, b.target`decodeIns, b.target`plain, b.target.dring, b.target.rbuf, b.target`delivered
      reads b.target`dbuf, b.target`dneed, b.target`doffset, b.target`dinit, b.target`payloads, b.target`consumed
      reads b.target`readBroken, b.target.dbuf, b.target.wire`taken
    {
      b.ValidR() && b.target.ValidR() && !b.target.readBroken
    }

    /** Reads never ran ahead of writes, in order, content or count. */
    ghost predicate Faithful()
      reads b`delivered
    {
      b.delivered <= Flatten(messages)
    }

    constructor (messages: seq<Bytes>, codec: BlockCodec, cipher: Cipher)
      requires Lawful(codec) && LawfulCipher(cipher) && Carriable(cipher, messages) && NonEmpty(messages)
      ensures Apart() && SentOk() && WriterOk() && LinkOk() && ReaderOk() && Faithful()
      ensures !a.writeBroken && !b.readBroken && this.messages == messages && next == 0
      ensures fresh(a) && fresh(b)
    {
      hide Carriable, LawfulCipher, Lawful, Encoded, Cuts, AesFrames, DecodedAs, DecryptedAs, NonEmpty, Flatten;
      hide Lz4.Lz4Compress.ValidW, Lz4.Lz4Compress.ValidR, Aes.AESEncryptor.ValidR, Aes.AESEncryptor.WritesMatch;
      var ea := NewEnd(codec, cipher);
      var eb := NewEnd(codec, cipher);
      this.messages, a, b, next := messages, ea, eb, 0;
      new;
      assert Apart() && ReaderOk();
    }

    /** One poll of the write of the next message. */
    method WriteTurn() returns (r: Poll<nat>)
      requires Apart() && SentOk() && WriterOk() && LinkOk() && !a.writeBroken && next < |messages|
      modifies this`next
      modifies a`ebuf, a`epos, a`writes, a`cur, a`writeBroken
      modifies a.target`ebuf, a.target`woffset, a.target`compressedOffset, a.target`eringOffset, a.target`encodeIns
      modifies a.target.ering, a.target.wire`sent, a.target.wire`stalls
      modifies a.target`writes, a.target`cur, a.target`blocks, a.target`frames, a.target`writeBroken
      ensures r.Pending? || a.writeBroken ==> a.target.wire.stalls > old(a.target.wire.stalls)
      ensures Apart() && SentOk() && LinkOk() && (!a.writeBroken ==> WriterOk())
      ensures next == old(next) + if r.Ready? && !a.writeBroken then 1 else 0
      ensures a.writeBroken ==> r.Ready? && (r.result.Err? || r.result.value == 0)
      ensures r.Ready? && !a.writeBroken ==> r == Ready(Ok(|messages[old(next)]|))
      ensures a.target.wire.stalls >= old(a.target.wire.stalls)
    {
      hide Carriable, LawfulCipher, Encoded, Cuts, AesFrames, Lz4.Lz4Compress.ValidW;
      assert messages[..next] + [messages[next]] == messages[..next + 1];
      CutsOfFirst(a.cipher, messages, next + 1);
      r := a.PollWrite(messages[next]);
      if r.Ready? && r.result.Ok? && r.result.value != 0 {
        next := next + 1;
      }
    }

    /** The stream above the decompressor, from what the reader's invariants say of it. */
    lemma Above()
      requires b.target.ValidR()
      ensures Decompressor(b.target.codec, b.target.wire.taken, b.target.delivered)
    {
      hide DecodedAs;
      assert DecodedAs(b.target.codec, b.target.payloads, b.target.plain, b.target.consumed);
    }

    lemma StillFaithful()
      requires Apart() && SentOk() && LinkOk() && ReaderOk()
      ensures Faithful()
    {
      hide DecodedAs, DecryptedAs, Encoded, Cuts, AesFrames;
      var c, k, sent, taken := a.target.codec, a.cipher, a.target.wire.sent, b.target.wire.taken;
      assert Sender(c, k, messages, sent);
      assert taken <= sent;
      Above();
      assert DecryptedAs(k, b.bodies, b.plain, b.consumed);
      assert Decryptor(k, b.target.delivered, b.delivered);
      ReadIsPrefixOfWritten(c, k, messages, sent, taken, b.target.delivered, b.delivered);
    }

    lemma NoAesUnpad()
      requires Apart() && SentOk() && LinkOk() && b.target.ValidR()
      requires DecryptedAs(b.cipher, b.bodies, b.plain, b.consumed)
      ensures !b.BodyRefused()
    {
      hide DecodedAs, DecryptedAs, Encoded, Cuts, AesFrames;
      var c, k, sent, taken := a.target.codec, a.cipher, a.target.wire.sent, b.target.wire.taken;
      assert Sender(c, k, messages, sent);
      assert taken <= sent;
      Above();
      MiddleIsPrefix(c, k, messages, sent, taken, b.target.delivered);
      forall body | Framing.Framable(body) && b.target.delivered == b.consumed + Framing.Frame(body) ensures k.dec(body).Some? {
        NothingUnpadded(k, messages, b.bodies, b.plain, b.consumed, body);
      }
    }

    /** The stream above the decompressor is the beginning of what the encryptor sent, even after a failure. */
    lemma MiddleSoFar()
      requires Apart() && SentOk() && LinkOk() && b.target.Ahead()
      requires DecodedAs(b.target.codec, b.target.payloads, b.target.plain, b.target.consumed)
      ensures b.target.delivered <= Flatten(AesFrames(b.cipher, messages))
    {
      hide DecodedAs, Encoded, Cuts, AesFrames;
      var c, k, sent, taken := a.target.codec, a.cipher, a.target.wire.sent, b.target.wire.taken;
      assert Sender(c, k, messages, sent);
      assert Decompressor(c, taken, b.target.delivered);
      MiddleIsPrefix(c, k, messages, sent, taken, b.target.delivered);
    }

    lemma NoEmptyFrameComes()
      requires Apart() && SentOk() && LinkOk() && b.target.Ahead()
      requires DecodedAs(b.target.codec, b.target.payloads, b.target.plain, b.target.consumed)
      requires DecryptedAs(b.cipher, b.bodies, b.plain, b.consumed)
      ensures !b.EmptyFrame()
    {
      hide DecodedAs, Encoded, Cuts, AesFrames, SentOk, LinkOk, Lz4.Lz4Compress.Ahead;
      MiddleSoFar();
      ShortFrames(b.cipher, messages);
      NoFrameIsEmpty(b.cipher, messages, b.bodies);
    }

    lemma NoEmptyMessage(plain: seq<Bytes>)
      requires Apart() && SentOk() && LinkOk() && b.target.Ahead() && b.ValidR()
      requires DecodedAs(b.target.codec, b.target.payloads, b.target.plain, b.target.consumed)
      ensures b.plain != plain + [[]]
    {
      hide DecodedAs, Encoded, Cuts, AesFrames, SentOk, LinkOk, Lz4.Lz4Compress.Ahead;
      MiddleSoFar();
      ShortFrames(b.cipher, messages);
      assert Framing.Frames(b.bodies) + [] == b.consumed;
      Framing.FramesPrefix(b.bodies, [], Ciphertexts(b.cipher, messages));
      DecryptsPrefix(b.cipher, messages, b.bodies);
      assert forall i :: 0 <= i < |b.plain| ==> b.plain[i] == messages[i] && b.plain[i] != [];
      assert (plain + [[]])[|plain|] == [];
    }

    /** The reader has given all that the wire had, and the wire is at its end. */
    ghost predicate EndReached()
      reads b`bodies, b`plain, b`consumed, b`delivered
      reads b.target`plain, b.target`payloads, b.target`consumed, b.target`delivered, b.target.wire`taken, b.target.wire`rest
    {
      && b.target.wire.rest == []
      && DrainedBelow(b.target.codec, b.target.wire.taken, b.target.delivered)
      && DrainedAbove(b.cipher, b.target.delivered, b.delivered)
    }

    lemma EndIsReached()
      requires b.AtEnd() && DecryptedAs(b.cipher, b.bodies, b.plain, b.consumed)
      requires DecodedAs(b.target.codec, b.target.payloads, b.target.plain, b.target.consumed)
      ensures EndReached()
    {
      hide DecodedAs, DecryptedAs;
      var below: Bytes :| Framing.Partial(below) && b.target.wire.taken == b.target.consumed + below;
      var above: Bytes :| Framing.Partial(above) && b.target.delivered == b.consumed + above;
    }

    lemma NoLz4Decompress()
      requires Apart() && SentOk() && LinkOk()
      requires DecodedAs(b.target.codec, b.target.payloads, b.target.plain, b.target.consumed)
      ensures !b.target.InputRefused()
    {
      hide DecodedAs, Encoded, Cuts, AesFrames, Rejected;
      if b.target.InputRefused() {
        var x := b.target.wire.taken[|b.target.consumed|..];
        assert b.target.consumed + x == b.target.wire.taken;
        FramesCutsOk(a.cipher, messages);
        NothingRejected(a.target.codec, Cuts(AesFrames(a.cipher, messages)), a.target.blocks, a.target.frames,
                        b.target.payloads, b.target.plain, b.target.consumed, x);
      }
    }

    /** One poll of a read. Of the ways to fail only a failure of the transport is left. */
    method ReadTurn(rb: AsyncIo.ReadBuf) returns (r: Poll<nat>)
      requires Apart() && SentOk() && LinkOk() && ReaderOk() && Faithful() && !b.readBroken
      requires rb.Valid() && b.Apart(rb) && rb.data != a.target.ering
      modifies b`rbuf, b`rpos, b`dinit, b`bodies, b`plain, b`consumed, b`delivered, b`readBroken
      modifies b.rbuf, b.dbuf, rb, rb.data
      modifies b.target`dringOffset, b.target`decodeIns, b.target`plain, b.target.dring, b.target.rbuf, b.target`delivered
      modifies b.target`dbuf, b.target`dneed, b.target`doffset, b.target`dinit, b.target`payloads, b.target`consumed
      modifies b.target`readBroken, b.target.dbuf, b.target.wire`rest, b.target.wire`taken, b.target.wire`stalls
      ensures r.Pending? || r.result.Err? ==> b.target.wire.stalls > old(b.target.wire.stalls)
      ensures Apart() && SentOk() && LinkOk() && Faithful() && (!b.readBroken ==> ReaderOk())
      ensures rb.Valid()
      ensures r.Ready? && r.result.Ok? ==> b.Served(rb, r.result.value)
      ensures !(r.Ready? && r.result.Ok?) ==> b.NotServed(rb)
      ensures b.readBroken ==> r.Ready? && b.NotServed(rb)
      ensures b.rbuf == null || b.rbuf == old(b.rbuf) || fresh(b.rbuf)
      ensures b.target.dbuf == null || b.target.dbuf == old(b.target.dbuf) || fresh(b.target.dbuf)
      ensures r.Ready? && r.result.Err? ==> r.result.error == Io
      ensures b.target.wire.stalls >= old(b.target.wire.stalls)
      ensures b.target.wire.taken + b.target.wire.rest == old(b.target.wire.taken + b.target.wire.rest)
      ensures r.Ready? && r.result.Err? ==> b.readBroken
      ensures r == Ready(Ok(0)) ==> old(rb.Remaining()) == 0 || EndReached()
    {
      hide Carriable, LawfulCipher, Encoded, Cuts, AesFrames, Lz4.Lz4Compress.ValidR, Aes.AESEncryptor.ValidR, DecodedAs, DecryptedAs;
      hide Aes.AESEncryptor.AtEnd, Aes.AESEncryptor.EmptyFrame, NonEmpty, Lz4.Lz4Compress.Ahead, EndReached;
      ghost var plain := b.plain;
      r := b.PollRead(rb);
      if r == Ready(Ok(0)) && old(rb.Remaining()) != 0 {
        NoEmptyFrameComes();
        if !b.readBroken {
          NoEmptyMessage(plain);
        }
        EndIsReached();
      }
      assert !b.target.readBroken ==> b.target.ValidR();
      if !b.readBroken {
        StillFaithful();
      } else if r.result.Err? && r.result.error == AesUnpad {
        NoAesUnpad();
      } else if r.result.Err? && r.result.error == Lz4Decompress {
        NoLz4Decompress();
      }
    }

    /** The transport moves `n` bytes to the reader. */
    method CarryTurn(n: nat)
      requires LinkOk() && |b.target.wire.taken| + |b.target.wire.rest| + n <= |a.target.wire.sent|
      modifies b.target.wire`rest
      ensures LinkOk()
      ensures var at := old(|b.target.wire.taken| + |b.target.wire.rest|);
              b.target.wire.rest == old(b.target.wire.rest) + a.target.wire.sent[at..at + n]
    {
      var at := |b.target.wire.taken| + |b.target.wire.rest|;
      b.target.wire.rest := b.target.wire.rest + a.target.wire.sent[at..at + n];
    }

    /** Every message is written, the wire is empty, and nothing is carried over at the reader. */
    ghost predicate Drained()
      reads this`next, a`writeBroken, b`readBroken, a.target.wire`sent, b.target.wire`taken, b.dbuf, b.target.rbuf
    {
      && !a.writeBroken && !b.readBroken && next == |messages|
      && b.target.wire.taken == a.target.wire.sent
      && b.dbuf.Contents() == [] && b.target.rbuf.Contents() == []
    }

    lemma AllSent()
      requires WriterOk() && SentOk() && next == |messages|
      ensures Encoded(a.target.codec, Cuts(AesFrames(a.cipher, messages)), a.target.wire.sent)
    {
      hide Encoded;
      assert messages[..next] == messages;
      assert a.cur == None && a.writes == messages;
      assert a.target.Idle();
      assert a.target.wire.sent == a.target.wire.sent + [] == a.target.frames;
      assert a.target.blocks == Cuts(a.target.writes) && a.target.writes == AesFrames(a.cipher, messages);
    }

    lemma BelowIsDrained()
      requires b.target.ValidR() && b.target.rbuf.Contents() == []
      ensures DrainedBelow(b.target.codec, b.target.wire.taken, b.target.delivered)
    {
      hide DecodedAs;
      var l := b.target;
      var held := l.Held();
      if l.dinit {
        Framing.FromLE32OfLE32(l.dneed);
        assert held[..4] == Framing.LE32(l.dneed);
      }
      assert Framing.Partial(held);
      assert DecodedAs(l.codec, l.payloads, l.plain, l.consumed) && l.wire.taken == l.consumed + held;
    }

    lemma AboveIsDrained()
      requires b.ValidR() && b.dbuf.Contents() == []
      ensures DrainedAbove(b.cipher, b.target.delivered, b.delivered)
    {
      hide DecryptedAs;
      var held := b.Held();
      if b.dinit {
        Framing.FromLE32OfLE32(b.rbuf.Length);
        assert held[..4] == Framing.LE32(b.rbuf.Length);
      }
      assert Framing.Partial(held) || held == Framing.LE32(0);
      assert DecryptedAs(b.cipher, b.bodies, b.plain, b.consumed) && b.target.delivered == b.consumed + held;
    }

    /** Then the reader has delivered all that was written. */
    lemma DrainedMeansAll()
      requires Apart() && SentOk() && WriterOk() && LinkOk() && ReaderOk() && Drained()
      ensures b.delivered == Flatten(messages)
    {
      hide Encoded, DecodedAs, DecryptedAs, Cuts, AesFrames, Aes.AESEncryptor.Held, Lz4.Lz4Compress.Held, Carriable;
      var c, k, sent := a.target.codec, a.cipher, a.target.wire.sent;
      AllSent();
      BelowIsDrained();
      AboveIsDrained();
      DrainedReadIsAll(c, k, messages, sent, b.target.delivered, b.delivered);
    }

    /** A poll of a write, if there is something to write: a message goes out, or the transport stands still or fails. */
    method WriteOnce() returns (again: bool)
      requires Apart() && SentOk() && WriterOk() && LinkOk() && !a.writeBroken
      modifies this`next
      modifies a`ebuf, a`epos, a`writes, a`cur, a`writeBroken
      modifies a.target`ebuf, a.target`woffset, a.target`compressedOffset, a.target`eringOffset, a.target`encodeIns
      modifies a.target.ering, a.target.wire`sent, a.target.wire`stalls
      modifies a.target`writes, a.target`cur, a.target`blocks, a.target`frames, a.target`writeBroken
      ensures Apart() && SentOk() && LinkOk() && (!a.writeBroken ==> WriterOk())
      ensures again <==> !a.writeBroken
      ensures a.target.wire.stalls >= old(a.target.wire.stalls) && old(next) <= next <= |messages|
      ensures next == |messages| || next - old(next) + (a.target.wire.stalls - old(a.target.wire.stalls)) >= 1
      ensures a.writeBroken ==> a.target.wire.stalls > old(a.target.wire.stalls)
    {
      hide Apart, SentOk, LinkOk;
      again := true;
      if next < |messages| {
        SomethingToWrite();
        var r := WriteTurn();
        again := r.Pending? || (r.result.Ok? && r.result.value != 0);
      }
    }

    /**
     A poll of a read into a buffer of `size` bytes: bytes come out, or the transport stands still or
     fails, or the wire is at its end and all it had was given.
     */
    method ReadOnce(size: nat) returns (again: bool, ended: bool)
      requires Apart() && SentOk() && LinkOk() && ReaderOk() && Faithful() && !b.readBroken
      modifies b`rbuf, b`rpos, b`dinit, b`bodies, b`plain, b`consumed, b`delivered, b`readBroken
      modifies b.rbuf, b.dbuf
      modifies b.target`dringOffset, b.target`decodeIns, b.target`plain, b.target.dring, b.target.rbuf, b.target`delivered
      modifies b.target`dbuf, b.target`dneed, b.target`doffset, b.target`dinit, b.target`payloads, b.target`consumed
      modifies b.target`readBroken, b.target.dbuf, b.target.wire`rest, b.target.wire`taken, b.target.wire`stalls
      ensures Apart() && SentOk() && LinkOk() && Faithful() && (!b.readBroken ==> ReaderOk())
      ensures b.rbuf == null || b.rbuf == old(b.rbuf) || fresh(b.rbuf)
      ensures b.target.dbuf == null || b.target.dbuf == old(b.target.dbuf) || fresh(b.target.dbuf)
      ensures again ==> !b.readBroken
      ensures b.target.wire.stalls >= old(b.target.wire.stalls) && |b.delivered| >= |old(b.delivered)|
      ensures b.target.wire.taken + b.target.wire.rest == old(b.target.wire.taken + b.target.wire.rest)
      ensures again ==> |b.delivered| - |old(b.delivered)| + (b.target.wire.stalls - old(b.target.wire.stalls)) >= 1
      ensures ended ==> !again && (size == 0 || EndReached())
      ensures !again && !ended ==> b.readBroken && b.target.wire.stalls > old(b.target.wire.stalls)
    {
      hide Apart, SentOk, LinkOk, ReaderOk, EndReached;
      var data := new byte[size];
      var rb := new AsyncIo.ReadBuf(data, 0, size);
      var r := ReadTurn(rb);
      again := r.Pending? || (r.result.Ok? && r.result.value != 0);
      ended := r == Ready(Ok(0));
    }

    /** The transport moves up to `n` bytes. */
    method CarryUpTo(n: nat)
      requires LinkOk()
      modifies b.target.wire`rest
      ensures LinkOk()
      ensures var moved := |b.target.wire.taken| + |b.target.wire.rest|;
              moved == |a.target.wire.sent| || moved == old(|b.target.wire.taken| + |b.target.wire.rest|) + n
    {
      var gap := |a.target.wire.sent| - |b.target.wire.taken| - |b.target.wire.rest|;
      CarryTurn(if n < gap then n else gap);
    }

    /** One turn; an end that has failed, or has met the end of the wire, is not used any more. */
    method Take(t: Turn, writing: bool, reading: bool) returns (open: bool, again: bool)
      requires Apart() && SentOk() && LinkOk() && Faithful() && next <= |messages|
      requires (writing <==> !a.writeBroken) && (writing ==> WriterOk()) && (reading ==> !b.readBroken)
      requires !b.readBroken ==> ReaderOk()
      modifies this`next
      modifies a`ebuf, a`epos, a`writes, a`cur, a`writeBroken
      modifies a.target`ebuf, a.target`woffset, a.target`compressedOffset, a.target`eringOffset, a.target`encodeIns
      modifies a.target.ering, a.target.wire`sent, a.target.wire`stalls
      modifies a.target`writes, a.target`cur, a.target`blocks, a.target`frames, a.target`writeBroken
      modifies b`rbuf, b`rpos, b`dinit, b`bodies, b`plain, b`consumed, b`delivered, b`readBroken
      modifies b.rbuf, b.dbuf
      modifies b.target`dringOffset, b.target`decodeIns, b.target`plain, b.target.dring, b.target.rbuf, b.target`delivered
      modifies b.target`dbuf, b.target`dneed, b.target`doffset, b.target`dinit, b.target`payloads, b.target`consumed
      modifies b.target`readBroken, b.target.dbuf, b.target.wire`rest, b.target.wire`taken, b.target.wire`stalls
      ensures Apart() && SentOk() && LinkOk() && Faithful() && next <= |messages|
      ensures (again <==> !a.writeBroken) && (again ==> writing && WriterOk()) && (open ==> !b.readBroken && reading)
      ensures !b.readBroken ==> ReaderOk()
      ensures b.rbuf == null || b.rbuf == old(b.rbuf) || fresh(b.rbuf)
      ensures b.target.dbuf == null || b.target.dbuf == old(b.target.dbuf) || fresh(b.target.dbuf)
      ensures a.target.wire.stalls >= old(a.target.wire.stalls) && b.target.wire.stalls >= old(b.target.wire.stalls)
      ensures next >= old(next) && |b.delivered| >= |old(b.delivered)|
      ensures a.writeBroken && writing ==> a.target.wire.stalls > old(a.target.wire.stalls)
      ensures t.Write? && again ==>
                next == |messages| || next - old(next) + (a.target.wire.stalls - old(a.target.wire.stalls)) >= 1
      ensures t.Read? && open ==>
                |b.delivered| - |old(b.delivered)| + (b.target.wire.stalls - old(b.target.wire.stalls)) >= 1
      ensures reading && !open ==> t == Read(0) || b.target.wire.stalls > old(b.target.wire.stalls) || AllGiven()
      ensures !reading && old(AllGiven()) ==> AllGiven()
      ensures t.Carry? ==>
                var moved := |b.target.wire.taken| + |b.target.wire.rest|;
                moved == |a.target.wire.sent| || moved >= t.n
    {
      hide Carriable, LawfulCipher, NonEmpty, SentOk, WriterOk, LinkOk, ReaderOk, EndReached, DrainedBelow, DrainedAbove;
      open, again := reading, writing;
      match t {
        case Write =>
          if writing {
            again := WriteOnce();
          }
        case Read(size) =>
          if reading {
            var ended;
            open, ended := ReadOnce(size);
            EndGivesAll();
          }
        case Carry(n) =>
          CarryUpTo(n);
      }
    }

    /**
     Turns in any order, reads of any size: throughout, what was read is a prefix of what was to be
     written, and once the connection is drained it is all of it. Every turn counts: each write has
     completed a message, each read has given bytes, unless the transport stood still; writing stops
     before the last message only when the transport fails, reading only then, for a buffer without
     room, or when the reader has given all that the wire had.
     */
    method Run(turns: seq<Turn>) returns (open: bool)
      requires Apart() && SentOk() && WriterOk() && LinkOk() && ReaderOk() && Faithful()
      requires !a.writeBroken && !b.readBroken
      modifies this`next
      modifies a`ebuf, a`epos, a`writes, a`cur, a`writeBroken
      modifies a.target`ebuf, a.target`woffset, a.target`compressedOffset, a.target`eringOffset, a.target`encodeIns
      modifies a.target.ering, a.target.wire`sent, a.target.wire`stalls
      modifies a.target`writes, a.target`cur, a.target`blocks, a.target`frames, a.target`writeBroken
      modifies b`rbuf, b`rpos, b`dinit, b`bodies, b`plain, b`consumed, b`delivered, b`readBroken
      modifies b.rbuf, b.dbuf
      modifies b.target`dringOffset, b.target`decodeIns, b.target`plain, b.target.dring, b.target.rbuf, b.target`delivered
      modifies b.target`dbuf, b.target`dneed, b.target`doffset, b.target`dinit, b.target`payloads, b.target`consumed
      modifies b.target`readBroken, b.target.dbuf, b.target.wire`rest, b.target.wire`taken, b.target.wire`stalls
      ensures b.delivered <= Flatten(messages)
      ensures Drained() ==> b.delivered == Flatten(messages)
      ensures a.target.wire.stalls >= old(a.target.wire.stalls) && b.target.wire.stalls >= old(b.target.wire.stalls)
      ensures a.writeBroken ==> a.target.wire.stalls > old(a.target.wire.stalls)
      ensures || a.writeBroken || next == |messages|
              || next - old(next) + (a.target.wire.stalls - old(a.target.wire.stalls)) >= Writes(turns)
      ensures open ==>
                |b.delivered| - |old(b.delivered)| + (b.target.wire.stalls - old(b.target.wire.stalls)) >= Reads(turns)
      ensures !open ==> Read(0) in turns || b.target.wire.stalls > old(b.target.wire.stalls) || AllGiven()
      ensures |turns| > 0 && turns[|turns| - 1].Carry? ==>
                var moved := |b.target.wire.taken| + |b.target.wire.rest|;
                moved == |a.target.wire.sent| || moved >= turns[|turns| - 1].n
    {
      hide Carriable, LawfulCipher, NonEmpty, SentOk, WriterOk, LinkOk, ReaderOk, AllGiven;
      var writing := true;
      open := true;
      NextFits();
      for i := 0 to |turns|
        invariant Apart() && SentOk() && LinkOk() && Faithful() && next <= |messages|
        invariant (writing <==> !a.writeBroken) && (writing ==> WriterOk()) && (open ==> !b.readBroken)
        invariant !b.readBroken ==> ReaderOk()
        invariant b.rbuf == null || b.rbuf == old(b.rbuf) || fresh(b.rbuf)
        invariant b.target.dbuf == null || b.target.dbuf == old(b.target.dbuf) || fresh(b.target.dbuf)
        invariant a.target.wire.stalls >= old(a.target.wire.stalls) && b.target.wire.stalls >= old(b.target.wire.stalls)
        invariant a.writeBroken ==> a.target.wire.stalls > old(a.target.wire.stalls)
        invariant || a.writeBroken || next == |messages|
                  || next - old(next) + (a.target.wire.stalls - old(a.target.wire.stalls)) >= Writes(turns[..i])
        invariant open ==>
            |b.delivered| - |old(b.delivered)| + (b.target.wire.stalls - old(b.target.wire.stalls)) >= Reads(turns[..i])
        invariant !open ==> Read(0) in turns || b.target.wire.stalls > old(b.target.wire.stalls) || AllGiven()
        invariant i > 0 && turns[i - 1].Carry? ==>
            var moved := |b.target.wire.taken| + |b.target.wire.rest|;
            moved == |a.target.wire.sent| || moved >= turns[i - 1].n
      {
        assert turns[..i + 1][..i] == turns[..i];
        open, writing := Take(turns[i], writing, open);
      }
      assert turns[..|turns|] == turns;
      if Drained() {
        DrainedMeansAll();
      }
    }

    lemma SomethingToWrite()
      requires Apart() && next < |messages|
      ensures messages[next] != []
    {
    }

    lemma NextFits()
      requires WriterOk()
      ensures next <= |messages|
    {
    }

    /** All that was taken from the wire has been given, but for parts of frames. */
    ghost predicate AllGiven()
      reads b`delivered, b.target`delivered, b.target.wire`taken
    {
      && DrainedBelow(b.target.codec, b.target.wire.taken, b.target.delivered)
      && DrainedAbove(b.cipher, b.target.delivered, b.delivered)
    }

    lemma EndGivesAll()
      ensures EndReached() ==> AllGiven() && b.target.wire.rest == []
    {
    }

    /** At the end of a wire that carried everything, everything was read. */
    lemma EndMeansAll()
      requires Apart() && SentOk() && WriterOk() && next == |messages| && !a.writeBroken
      requires AllGiven() && b.target.wire.taken == a.target.wire.sent
      ensures b.delivered == Flatten(messages)
    {
      hide Encoded, Cuts, AesFrames, Carriable, DrainedBelow, DrainedAbove;
      AllSent();
      DrainedReadIsAll(a.target.codec, a.cipher, messages, a.target.wire.sent, b.target.delivered, b.delivered);
    }

    /**
     All messages are written, all is carried, and the reader reads until the end, with up to `polls`
     polls each way. Then everything arrives, unless the transport fails or stands still too often: a
     poll for each message, and one for each byte and for the end, besides those in which it stood still.
     */
    method Transfer(polls: nat, size: nat) returns (done: bool)
      requires Apart() && SentOk() && WriterOk() && LinkOk() && ReaderOk() && Faithful()
      requires !a.writeBroken && !b.readBroken && size > 0
      modifies this`next
      modifies a`ebuf, a`epos, a`writes, a`cur, a`writeBroken
      modifies a.target`ebuf, a.target`woffset, a.target`compressedOffset, a.target`eringOffset, a.target`encodeIns
      modifies a.target.ering, a.target.wire`sent, a.target.wire`stalls
      modifies a.target`writes, a.target`cur, a.target`blocks, a.target`frames, a.target`writeBroken
      modifies b`rbuf, b`rpos, b`dinit, b`bodies, b`plain, b`consumed, b`delivered, b`readBroken
      modifies b.rbuf, b.dbuf
      modifies b.target`dringOffset, b.target`decodeIns, b.target`plain, b.target.dring, b.target.rbuf, b.target`delivered
      modifies b.target`dbuf, b.target`dneed, b.target`doffset, b.target`dinit, b.target`payloads, b.target`consumed
      modifies b.target`readBroken, b.target.dbuf, b.target.wire`rest, b.target.wire`taken, b.target.wire`stalls
      ensures done ==> b.delivered == Flatten(messages)
      ensures var waited := a.target.wire.stalls - old(a.target.wire.stalls) + (b.target.wire.stalls - old(b.target.wire.stalls));
              !done ==>
                || (waited > 0 && (a.writeBroken || b.readBroken))
                || polls <= |messages| + waited || polls <= |Flatten(messages)| + waited
    {
      hide Carriable, LawfulCipher, NonEmpty, SentOk, WriterOk, LinkOk, ReaderOk, EndReached, AllGiven;
      done := false;
      var i := 0;
      NextFits();
      while i < polls && next < |messages|
        invariant Apart() && SentOk() && LinkOk() && WriterOk() && ReaderOk() && Faithful()
        invariant !a.writeBroken && !b.readBroken && next <= |messages|
        invariant i <= polls && a.target.wire.stalls >= old(a.target.wire.stalls)
        invariant b.target.wire.stalls == old(b.target.wire.stalls) && b.delivered == old(b.delivered)
        invariant b.rbuf == old(b.rbuf) && b.target.dbuf == old(b.target.dbuf)
        invariant next == |messages| || i <= next - old(next) + (a.target.wire.stalls - old(a.target.wire.stalls))
      {
        i := i + 1;
        var again := WriteOnce();
        if !again {
          return;
        }
      }
      if next < |messages| {
        return;
      }
      CarryUpTo(|a.target.wire.sent|);
      LinkFits();
      i := 0;
      while i < polls
        invariant Apart() && SentOk() && LinkOk() && WriterOk() && ReaderOk() && Faithful() && !b.readBroken
        invariant i <= polls && b.target.wire.stalls >= old(b.target.wire.stalls) && next == |messages| && !a.writeBroken
        invariant a.target.wire.stalls >= old(a.target.wire.stalls) && !done
        invariant |b.target.wire.taken + b.target.wire.rest| == |a.target.wire.sent|
        invariant i <= |b.delivered| - |old(b.delivered)| + (b.target.wire.stalls - old(b.target.wire.stalls))
        invariant b.rbuf == null || b.rbuf == old(b.rbuf) || fresh(b.rbuf)
        invariant b.target.dbuf == null || b.target.dbuf == old(b.target.dbuf) || fresh(b.target.dbuf)
      {
        i := i + 1;
        var again;
        again, done := ReadOnce(size);
        if done {
          EndGivesAll();
          LinkIsAll();
          EndMeansAll();
        }
        if !again {
          return;
        }
      }
      DeliveredFits();
    }

    lemma LinkFits()
      requires LinkOk()
      ensures |b.target.wire.taken| + |b.target.wire.rest| <= |a.target.wire.sent|
    {
    }

    lemma LinkIsAll()
      requires LinkOk() && |b.target.wire.taken + b.target.wire.rest| == |a.target.wire.sent| && b.target.wire.rest == []
      ensures b.target.wire.taken == a.target.wire.sent
    {
    }

    lemma DeliveredFits()
      requires Faithful()
      ensures |b.delivered| <= |Flatten(messages)|
    {
    }
  }

  method NewEnd(codec: BlockCodec, cipher: Cipher) returns (e: Aes.AESEncryptor)
    requires Lawful(codec)
    ensures e.cipher == cipher && e.target.codec == codec
    ensures e.WritesMatch() && e.target.ValidW() && !e.writeBroken && !e.target.writeBroken
    ensures e.ValidR() && e.target.ValidR() && !e.readBroken && !e.target.readBroken
    ensures e.cur == None && e.writes == [] && e.delivered == []
    ensures Encoded(codec, e.target.blocks, e.target.frames) && e.target.blocks == []
    ensures e.target.wire.sent == [] && e.target.wire.taken == [] && e.target.wire.rest == []
    ensures fresh(e) && fresh(e.target) && fresh(e.target.wire) && fresh(e.target.ering) && fresh(e.target.dring)
    ensures e.rbuf == null && e.target.dbuf == null
    ensures e.target.ering != e.target.dring
  {
    var wire := new AsyncIo.Duplex([]);
    var l := new Lz4.Lz4Compress(wire, codec);
    e := new Aes.AESEncryptor(l, cipher);
  }

  lemma CutsOfFirst(k: Cipher, messages: seq<Bytes>, n: nat)
    requires n <= |messages|
    ensures Cuts(AesFrames(k, messages[..n])) <= Cuts(AesFrames(k, messages))
  {
    AesFramesPrefix(k, messages, n);
    var fs := AesFrames(k, messages);
    CutsPrefix(fs, n);
  }
}
