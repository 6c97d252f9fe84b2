/** Exactly which writes survive the encrypting stream over the compressing one. */
module Lossless {
  import opened Common
  import Framing
  import Buffer
  import opened Lz4Spec
  import opened AesSpec
  import opened EndToEnd

  /** The messages of a decrypted stream that consists of whole frames. */
  function Messages(k: Cipher, s: Bytes): Option<seq<Bytes>>
    decreases |s|
  {
    if s == [] then Some([]) else
    match FirstMessage(k, s)
    case None => None
    case Some((p, rest)) =>
      match Messages(k, rest)
      case None => None
      case Some(more) => Some([p] + more)
  }

  /** What arrives at the far end, once the whole wire was read: all messages, or nothing for certain. */
  function Received(c: BlockCodec, k: Cipher, ws: seq<Bytes>): Option<seq<Bytes>> {
    match Decoded(c, Payloads(c, Cuts(AesFrames(k, ws))))
    case None => None
    case Some(blocks) => Messages(k, Flatten(blocks))
  }

  // ---- The upper layer ----

  lemma {:induction false} AesFramesHead(k: Cipher, ws: seq<Bytes>)
    requires |ws| > 0
    ensures AesFrames(k, ws) == [AesFrame(k, ws[0])] + AesFrames(k, ws[1..])
  {
    var init := ws[..|ws| - 1];
    if |ws| == 1 {
      assert AesFrames(k, init) == [];
    } else {
      AesFramesHead(k, init);
      assert init[1..] == ws[1..][..|ws| - 2];
    }
  }

  lemma StreamHead(k: Cipher, ws: seq<Bytes>)
    requires |ws| > 0
    ensures Flatten(AesFrames(k, ws)) == AesFrame(k, ws[0]) + Flatten(AesFrames(k, ws[1..]))
  {
    AesFramesHead(k, ws);
    Buffer.FlattenCons(AesFrame(k, ws[0]), AesFrames(k, ws[1..]));
  }

  lemma {:induction false} ShortArrive(k: Cipher, ws: seq<Bytes>)
    requires LawfulCipher(k) && AllShort(ws)
    ensures Messages(k, Flatten(AesFrames(k, ws))) == Some(ws)
    decreases |ws|
  {
    if |ws| > 0 {
      StreamHead(k, ws);
      ShortReadsBack(k, ws[0], Flatten(AesFrames(k, ws[1..])));
      ShortArrive(k, ws[1..]);
      assert [ws[0]] + ws[1..] == ws;
    }
  }

  lemma ArrivesWithTheRest(ws: seq<Bytes>, rest: Option<seq<Bytes>>)
    requires |ws| > 0 && rest != Some(ws[1..])
    ensures (if rest.None? then None else Some([ws[0]] + rest.value)) != Some(ws)
  {
    if rest.Some? {
      assert ([ws[0]] + rest.value)[1..] == rest.value;
    }
  }

  lemma {:induction false} LongDoNotArrive(ws: seq<Bytes>)
    requires !AllShort(ws)
    ensures Messages(PaddingCipher(), Flatten(AesFrames(PaddingCipher(), ws))) != Some(ws)
    decreases |ws|
  {
    hide Framing.LE32, Framing.FromLE32;
    var k := PaddingCipher();
    var rest := Flatten(AesFrames(k, ws[1..]));
    StreamHead(k, ws);
    if Short(ws[0]) {
      PaddingCipherLawful();
      ShortReadsBack(k, ws[0], rest);
      LongDoNotArrive(ws[1..]);
      ArrivesWithTheRest(ws, Messages(k, rest));
    } else {
      LongFails(ws[0], rest);
    }
  }

  // ---- The lower layer ----

  /** The codec that notices a mismatch of the rings never makes up a block. */
  lemma {:induction false} LapNeverLies(blocks: seq<Bytes>)
    ensures Decoded(LapCodec(), Payloads(LapCodec(), blocks)).Some? ==>
              Decoded(LapCodec(), Payloads(LapCodec(), blocks)) == Some(blocks)
  {
    if |blocks| > 0 {
      var c, init, b := LapCodec(), blocks[..|blocks| - 1], blocks[|blocks| - 1];
      LapNeverLies(init);
      assert init + [b] == blocks;
      BlockAppended(c, init, b);
      var p := c.enc(EncHistory(init), EncOffset(init), b);
      if Decoded(c, Payloads(c, init) + [p]).Some? {
        DecodedSnoc(c, Payloads(c, init), p);
        assert p[1..] == b;
      }
    }
  }

  lemma GapRejected(blocks: seq<Bytes>)
    requires BlocksOk(blocks) && !AvoidsGap(blocks)
    ensures Decoded(LapCodec(), Payloads(LapCodec(), blocks)) == None
  {
    OutOfStepFails(blocks);
    LapNeverLies(blocks);
  }

  // ---- Both ----

  lemma CarriableArrives(c: BlockCodec, k: Cipher, ws: seq<Bytes>)
    requires Lawful(c) && LawfulCipher(k) && Carriable(k, ws)
    ensures Received(c, k, ws) == Some(ws)
  {
    hide Messages, Decoded, Payloads;
    FramesCutsOk(k, ws);
    InStepIffAvoidsGap(Cuts(AesFrames(k, ws)));
    InStepDecodes(c, Cuts(AesFrames(k, ws)));
    ShortArrive(k, ws);
  }

  lemma GapDoesNotArrive(k: Cipher, ws: seq<Bytes>)
    requires LawfulCipher(k) && !AvoidsGap(Cuts(AesFrames(k, ws)))
    ensures Received(LapCodec(), k, ws) == None
  {
    FramesCutsOk(k, ws);
    GapRejected(Cuts(AesFrames(k, ws)));
  }

  lemma LongIsNotReceived(ws: seq<Bytes>)
    requires !AllShort(ws)
    ensures Received(LapCodec(), PaddingCipher(), ws) != Some(ws)
  {
    hide Messages, Decoded, Payloads;
    var k := PaddingCipher();
    PaddingCipherLawful();
    LapNeverLies(Cuts(AesFrames(k, ws)));
    FramesCutsOk(k, ws);
    LongDoNotArrive(ws);
  }

  // ---- The condition is one on lengths ----

  ghost predicate SameLengths(a: seq<Bytes>, b: seq<Bytes>) {
    |a| == |b| && forall i :: 0 <= i < |a| ==> |a[i]| == |b[i]|
  }

  lemma {:induction false} ChunksSameLengths(a: Bytes, b: Bytes)
    requires |a| == |b|
    ensures SameLengths(Chunks(a), Chunks(b))
    decreases |a|
  {
    if |a| > MAX_BLOCK {
      ChunksSameLengths(a[MAX_BLOCK..], b[MAX_BLOCK..]);
    }
  }

  lemma {:induction false} CutsSameLengths(a: seq<Bytes>, b: seq<Bytes>)
    requires SameLengths(a, b)
    ensures SameLengths(Cuts(a), Cuts(b))
  {
    if |a| > 0 {
      CutsSameLengths(a[..|a| - 1], b[..|b| - 1]);
      ChunksSameLengths(a[|a| - 1], b[|b| - 1]);
    }
  }

  lemma {:induction false} OffsetSameLengths(a: seq<Bytes>, b: seq<Bytes>)
    requires SameLengths(a, b)
    ensures EncOffset(a) == EncOffset(b)
  {
    if |a| > 0 {
      OffsetSameLengths(a[..|a| - 1], b[..|b| - 1]);
    }
  }

  lemma {:induction false} FramesSameLengths(k: Cipher, l: Cipher, ws: seq<Bytes>)
    requires LawfulCipher(k) && LawfulCipher(l)
    ensures SameLengths(AesFrames(k, ws), AesFrames(l, ws))
  {
    if |ws| > 0 {
      var w := ws[|ws| - 1];
      FramesSameLengths(k, l, ws[..|ws| - 1]);
      assert |k.enc(w)| == |l.enc(w)| == PaddedLen(|w|);
    }
  }

  /** Which writes a connection carries does not depend on the cipher, but on their lengths. */
  lemma CarriableByLength(k: Cipher, l: Cipher, ws: seq<Bytes>)
    requires LawfulCipher(k) && LawfulCipher(l)
    ensures Carriable(k, ws) <==> Carriable(l, ws)
  {
    hide Cuts, AesFrames, EncOffset;
    FramesSameLengths(k, l, ws);
    var a, b := Cuts(AesFrames(k, ws)), Cuts(AesFrames(l, ws));
    CutsSameLengths(AesFrames(k, ws), AesFrames(l, ws));
    forall i | 0 < i < |a| ensures EncOffset(a[..i]) == EncOffset(b[..i]) {
      OffsetSameLengths(a[..i], b[..i]);
    }
  }

  /**
   What was written arrives, whatever the library and the cipher do within their contracts, if and
   only if every write is short enough and no block but the last ends in the gap of the rings.
   */
  lemma ArrivesIffCarriable(ws: seq<Bytes>)
    ensures (forall c: BlockCodec, k: Cipher | Lawful(c) && LawfulCipher(k) :: Received(c, k, ws) == Some(ws))
            <==> Carriable(PaddingCipher(), ws)
  {
    hide Received, Carriable, Lawful, LawfulCipher, LapCodec, PaddingCipher;
    PaddingCipherLawful();
    LapCodecLawful();
    if Carriable(PaddingCipher(), ws) {
      forall c: BlockCodec, k: Cipher | Lawful(c) && LawfulCipher(k) ensures Received(c, k, ws) == Some(ws) {
        CarriableByLength(k, PaddingCipher(), ws);
        CarriableArrives(c, k, ws);
      }
    } else {
      NotCarriable(ws);
    }
  }

  lemma NotCarriable(ws: seq<Bytes>)
    requires !Carriable(PaddingCipher(), ws)
    ensures Received(LapCodec(), PaddingCipher(), ws) != Some(ws)
  {
    hide Received;
    PaddingCipherLawful();
    if AllShort(ws) {
      GapDoesNotArrive(PaddingCipher(), ws);
    } else {
      LongIsNotReceived(ws);
    }
  }

  /**
   A write of 2016 to 2031 bytes makes a frame of 2036 bytes: its second block ends at ring offset
   2036, where only the reader starts over. With the codec that notices it, nothing of such a
   connection can be relied on once something else was written.
   */
  lemma TwoThousandBytesLost(k: Cipher, w: Bytes, next: Bytes)
    requires LawfulCipher(k) && 2016 <= |w| < 2032
    ensures Lawful(LapCodec()) && Received(LapCodec(), k, [w, next]) == None
  {
    LapCodecLawful();
    TwoThousandBytesMisalign(k, w, next);
    GapDoesNotArrive(k, [w, next]);
  }

  // ---- What the reader of such a connection delivers ----

  lemma {:induction false} ProperPartIsShorter(parts: seq<Bytes>, n: nat)
    requires n < |parts| && NonEmpty(parts)
    ensures |Flatten(parts[..n])| < |Flatten(parts)|
  {
    FlattenConcat(parts[..n], parts[n..]);
    assert parts == parts[..n] + parts[n..];
    var rest := parts[n..];
    assert rest[|rest| - 1] != [];
  }

  lemma ShorterPart(a: seq<Bytes>, b: seq<Bytes>)
    requires a <= b && a != b
    ensures |a| < |b|
  {
    assert b[..|b|] == b;
  }

  lemma PartDecoded(blocks: seq<Bytes>, payloads: seq<Bytes>, got: seq<Bytes>)
    requires payloads <= Payloads(LapCodec(), blocks) && Decoded(LapCodec(), payloads) == Some(got)
    requires Decoded(LapCodec(), Payloads(LapCodec(), blocks)) == None
    ensures |payloads| < |blocks| && got == blocks[..|payloads|]
  {
    hide LapCodec, Decoded, Payloads;
    var ps, n := Payloads(LapCodec(), blocks), |payloads|;
    assert payloads == ps[..n];
    if payloads != ps {
      ShorterPart(payloads, ps);
    }
    PayloadsPrefix(LapCodec(), blocks, n);
    LapNeverLies(blocks[..n]);
  }

  /** Out of step, the decompressor stops short of the last block. */
  lemma StopsShort(blocks: seq<Bytes>, sent: Bytes, taken: Bytes, middle: Bytes)
    requires BlocksOk(blocks) && !AvoidsGap(blocks) && Encoded(LapCodec(), blocks, sent) && taken <= sent
    requires Decompressor(LapCodec(), taken, middle)
    ensures middle <= Flatten(blocks) && |middle| < |Flatten(blocks)|
  {
    hide Decoded, Payloads, LapCodec;
    var c := LapCodec();
    var payloads, got, frames :| DecodedAs(c, payloads, got, frames) && frames <= taken && middle <= Flatten(got);
    assert Framing.Frames(payloads) + [] == frames;
    Framing.FramesPrefix(payloads, [], Payloads(c, blocks));
    GapRejected(blocks);
    var n := |payloads|;
    PartDecoded(blocks, payloads, got);
    ProperPartIsShorter(blocks, n);
    FlattenPrefix(got, blocks);
  }

  lemma LessMiddleLessDelivered(k: Cipher, ws: seq<Bytes>, middle: Bytes, delivered: Bytes)
    requires LawfulCipher(k) && AllShort(ws) && NonEmpty(ws)
    requires Decryptor(k, middle, delivered)
    requires middle <= Flatten(AesFrames(k, ws)) && |middle| < |Flatten(AesFrames(k, ws))|
    ensures delivered <= Flatten(ws) && |delivered| < |Flatten(ws)|
  {
    hide Plaintexts;
    var bodies, plain, frames :| DecryptedAs(k, bodies, plain, frames) && frames <= middle && delivered <= Flatten(plain);
    ShortFrames(k, ws);
    assert Framing.Frames(bodies) + [] == frames;
    Framing.FramesPrefix(bodies, [], Ciphertexts(k, ws));
    assert bodies != Ciphertexts(k, ws);
    DecryptsPrefix(k, ws, bodies);
    ProperPartIsShorter(ws, |bodies|);
    FlattenPrefix(plain, ws);
  }

  /**
   A connection whose writes fall into the gap loses data: with the codec that notices it, no reader ever
   delivers all that was written, however it is polled.
   */
  lemma GapLosesData(k: Cipher, ws: seq<Bytes>, sent: Bytes, taken: Bytes, middle: Bytes, delivered: Bytes)
    requires LawfulCipher(k) && AllShort(ws) && NonEmpty(ws) && !AvoidsGap(Cuts(AesFrames(k, ws)))
    requires Encoded(LapCodec(), Cuts(AesFrames(k, ws)), sent) && taken <= sent
    requires Decompressor(LapCodec(), taken, middle) && Decryptor(k, middle, delivered)
    ensures delivered <= Flatten(ws) && delivered != Flatten(ws)
  {
    hide Cuts, AesFrames, Encoded, Decompressor, Decryptor;
    FramesCutsOk(k, ws);
    StopsShort(Cuts(AesFrames(k, ws)), sent, taken, middle);
    LessMiddleLessDelivered(k, ws, middle, delivered);
  }
}
