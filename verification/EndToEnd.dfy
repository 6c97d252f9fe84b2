/** From the writes at one end of an encrypted and compressed connection to the reads at the other. */
module EndToEnd {
  import opened Common
  import opened Framing
  import opened Lz4Spec
  import opened AesSpec

  /** `ws` were written, the last of them perhaps only in part, and `sent` has left so far. */
  ghost predicate Sender(c: BlockCodec, k: Cipher, ws: seq<Bytes>, sent: Bytes) {
    exists blocks, frames ::
      Encoded(c, blocks, frames) && blocks <= Cuts(AesFrames(k, ws)) && sent <= frames
  }

  /** Of the decompressed stream of a reader that was given `taken`, `middle` went up a layer. */
  ghost predicate Decompressor(c: BlockCodec, taken: Bytes, middle: Bytes) {
    exists payloads, blocks, frames ::
      DecodedAs(c, payloads, blocks, frames) && frames <= taken && middle <= Flatten(blocks)
  }

  /** Of the decrypted stream of a reader that was given `middle`, `delivered` went to the caller. */
  ghost predicate Decryptor(k: Cipher, middle: Bytes, delivered: Bytes) {
    exists bodies, plain, frames ::
      DecryptedAs(k, bodies, plain, frames) && frames <= middle && delivered <= Flatten(plain)
  }

  /** What the writes must be like for the connection to carry them. */
  ghost predicate Carriable(k: Cipher, ws: seq<Bytes>) {
    AllShort(ws) && AvoidsGap(Cuts(AesFrames(k, ws)))
  }

  lemma PrefixInStep(blocks: seq<Bytes>, all: seq<Bytes>)
    requires BlocksOk(all) && AvoidsGap(all) && blocks <= all
    ensures BlocksOk(blocks) && InStep(blocks)
  {
    InStepIffAvoidsGap(all);
    InStepPrefix(all, |blocks|);
    assert all[..|blocks|] == blocks;
  }

  lemma FramesCutsOk(k: Cipher, ws: seq<Bytes>)
    ensures BlocksOk(Cuts(AesFrames(k, ws))) && Flatten(Cuts(AesFrames(k, ws))) == Flatten(AesFrames(k, ws))
  {
    AesFramesNonEmpty(k, ws);
    CutsFlatten(AesFrames(k, ws));
  }

  /** The compressed layer: payloads that arrive are among those sent and decode to the blocks sent. */
  lemma DecodesToPrefix(c: BlockCodec, all: seq<Bytes>, blocks: seq<Bytes>, frames: Bytes,
                        payloads: seq<Bytes>, got: seq<Bytes>, gotFrames: Bytes)
    requires BlocksOk(all) && AvoidsGap(all)
    requires Encoded(c, blocks, frames) && blocks <= all
    requires DecodedAs(c, payloads, got, gotFrames) && gotFrames <= frames
    ensures got <= blocks && payloads <= Payloads(c, blocks)
  {
    hide Payloads, Decoded, Lawful, SafeDecoder, InStep, AvoidsGap, LE32;
    PrefixInStep(blocks, all);
    assert Frames(payloads) + [] == gotFrames;
    FramesPrefix(payloads, [], Payloads(c, blocks));
    InStepDecodes(c, blocks);
    DecodedPrefix(c, Payloads(c, blocks), |payloads|);
    assert Payloads(c, blocks)[..|payloads|] == payloads;
  }

  lemma MiddleIsPrefix(c: BlockCodec, k: Cipher, ws: seq<Bytes>, sent: Bytes, taken: Bytes, middle: Bytes)
    requires AvoidsGap(Cuts(AesFrames(k, ws)))
    requires Sender(c, k, ws, sent) && Decompressor(c, taken, middle) && taken <= sent
    ensures middle <= Flatten(AesFrames(k, ws))
  {
    hide Payloads, Cuts;
    FramesCutsOk(k, ws);
    var all := Cuts(AesFrames(k, ws));
    var blocks, frames :| Encoded(c, blocks, frames) && blocks <= all && sent <= frames;
    var payloads, got, gotFrames :| DecodedAs(c, payloads, got, gotFrames) && gotFrames <= taken && middle <= Flatten(got);
    DecodesToPrefix(c, all, blocks, frames, payloads, got, gotFrames);
    FlattenPrefix(got, all);
  }

  lemma DeliveredIsPrefix(k: Cipher, ws: seq<Bytes>, middle: Bytes, delivered: Bytes)
    requires LawfulCipher(k) && AllShort(ws)
    requires Decryptor(k, middle, delivered) && middle <= Flatten(AesFrames(k, ws))
    ensures delivered <= Flatten(ws)
  {
    var bodies, plain, frames :| DecryptedAs(k, bodies, plain, frames) && frames <= middle && delivered <= Flatten(plain);
    ShortFrames(k, ws);
    assert Frames(bodies) + [] == frames;
    FramesPrefix(bodies, [], Ciphertexts(k, ws));
    DecryptsPrefix(k, ws, bodies);
    FlattenPrefix(plain, ws);
  }

  lemma DecryptsPrefix(k: Cipher, ws: seq<Bytes>, bodies: seq<Bytes>)
    requires LawfulCipher(k) && bodies <= Ciphertexts(k, ws)
    ensures Plaintexts(k, bodies) == Some(ws[..|bodies|])
  {
    CiphertextsPrefix(k, ws, |bodies|);
    assert bodies == Ciphertexts(k, ws)[..|bodies|];
    DecryptsBack(k, ws[..|bodies|]);
  }

  /**
   Whatever was written, however writes and reads were cut up and delayed: what has been read is a
   prefix of what was written.
   */
  lemma ReadIsPrefixOfWritten(c: BlockCodec, k: Cipher, ws: seq<Bytes>, sent: Bytes, taken: Bytes,
                              middle: Bytes, delivered: Bytes)
    requires LawfulCipher(k) && Carriable(k, ws)
    requires Sender(c, k, ws, sent) && taken <= sent
    requires Decompressor(c, taken, middle) && Decryptor(k, middle, delivered)
    ensures delivered <= Flatten(ws)
  {
    MiddleIsPrefix(c, k, ws, sent, taken, middle);
    DeliveredIsPrefix(k, ws, middle, delivered);
  }

  /** The decompressor refuses nothing that the compressor sent. */
  lemma NothingRejected(c: BlockCodec, all: seq<Bytes>, blocks: seq<Bytes>, frames: Bytes,
                        payloads: seq<Bytes>, got: seq<Bytes>, consumed: Bytes, x: Bytes)
    requires BlocksOk(all) && AvoidsGap(all)
    requires Encoded(c, blocks, frames) && blocks <= all
    requires DecodedAs(c, payloads, got, consumed) && consumed + x <= frames
    ensures !Rejected(c, got, x)
  {
    hide Payloads, Decoded, RejectedPayload, Lawful, SafeDecoder, DecHistory, DecOffset, EncOffset, InStep, AvoidsGap;
    PrefixInStep(blocks, all);
    if |x| == 4 {
      PayloadsSmall(c, blocks);
      SizeIsThatOfAPayload(payloads, x, Payloads(c, blocks));
    }
    forall p | Framable(p) && x == Frame(p) ensures !RejectedPayload(c, got, p) {
      SentPayloadDecodes(c, blocks, payloads, got, p);
    }
  }

  lemma SizeIsThatOfAPayload(payloads: seq<Bytes>, x: Bytes, ps: seq<Bytes>)
    requires AllFramable(payloads) && AllFramable(ps)
    requires Frames(payloads) + x <= Frames(ps) && |x| == 4
    ensures |payloads| < |ps| && FromLE32(x) == |ps[|payloads|]|
  {
    FramesPrefix(payloads, x, ps);
    var rest := ps[|payloads|..];
    assert ps == payloads + rest;
    FramesConcat(payloads, rest);
    PrefixCancel(Frames(payloads), x, Frames(rest));
    FramesHead(rest);
    FromLE32OfLE32(|rest[0]|);
    assert x == Frames(rest)[..4] == LE32(|rest[0]|);
  }

  lemma SentPayloadDecodes(c: BlockCodec, blocks: seq<Bytes>, payloads: seq<Bytes>, got: seq<Bytes>, p: Bytes)
    requires Lawful(c) && BlocksOk(blocks) && InStep(blocks)
    requires AllFramable(payloads) && Framable(p) && AllFramable(Payloads(c, blocks))
    requires Decoded(c, payloads) == Some(got)
    requires Frames(payloads) + Frame(p) <= Frames(Payloads(c, blocks))
    ensures !RejectedPayload(c, got, p)
  {
    hide Payloads, Lawful, SafeDecoder, DecHistory, DecOffset, EncOffset, InStep;
    FramesSnoc(payloads, p);
    var ps := Payloads(c, blocks);
    assert Frames(payloads + [p]) + [] == Frames(payloads) + Frame(p);
    FramesPrefix(payloads + [p], [], ps);
    InStepDecodes(c, blocks);
    DecodedPrefix(c, ps, |payloads| + 1);
    assert ps[..|payloads| + 1] == payloads + [p];
    assert (payloads + [p])[..|payloads|] == payloads;
  }

  /** The decryptor refuses nothing that the encryptor sent. */
  lemma NothingUnpadded(k: Cipher, ws: seq<Bytes>, bodies: seq<Bytes>, plain: seq<Bytes>, consumed: Bytes, body: Bytes)
    requires LawfulCipher(k) && AllShort(ws) && Framable(body)
    requires DecryptedAs(k, bodies, plain, consumed) && consumed + Frame(body) <= Flatten(AesFrames(k, ws))
    ensures k.dec(body).Some?
  {
    ShortFrames(k, ws);
    FramesSnoc(bodies, body);
    assert Frames(bodies + [body]) + [] == consumed + Frame(body);
    FramesPrefix(bodies + [body], [], Ciphertexts(k, ws));
    DecryptsPrefix(k, ws, bodies + [body]);
    assert (bodies + [body])[..|bodies|] == bodies;
  }

  /** No complete frame waits in the decompressor, and all it made went up as `middle`. */
  ghost predicate DrainedBelow(c: BlockCodec, taken: Bytes, middle: Bytes) {
    exists payloads, blocks, frames, held ::
      DecodedAs(c, payloads, blocks, frames) && taken == frames + held && Partial(held) && middle == Flatten(blocks)
  }

  /** No complete frame waits in the decryptor, and all it made was delivered. */
  ghost predicate DrainedAbove(k: Cipher, middle: Bytes, delivered: Bytes) {
    exists bodies, plain, frames, held ::
      && DecryptedAs(k, bodies, plain, frames) && middle == frames + held
      && (Partial(held) || held == LE32(0)) && delivered == Flatten(plain)
  }

  lemma DrainedMiddle(c: BlockCodec, k: Cipher, ws: seq<Bytes>, sent: Bytes, middle: Bytes)
    requires AvoidsGap(Cuts(AesFrames(k, ws)))
    requires Encoded(c, Cuts(AesFrames(k, ws)), sent) && DrainedBelow(c, sent, middle)
    ensures middle == Flatten(AesFrames(k, ws))
  {
    hide Cuts, Payloads, Decoded;
    var all := Cuts(AesFrames(k, ws));
    FramesCutsOk(k, ws);
    var payloads, got, frames, held :|
      DecodedAs(c, payloads, got, frames) && sent == frames + held && Partial(held) && middle == Flatten(got);
    FramesWhole(payloads, held, Payloads(c, all));
    PrefixInStep(all, all);
    InStepDecodes(c, all);
  }

  lemma DrainedTop(k: Cipher, ws: seq<Bytes>, middle: Bytes, delivered: Bytes)
    requires LawfulCipher(k) && AllShort(ws)
    requires middle == Flatten(AesFrames(k, ws)) && DrainedAbove(k, middle, delivered)
    ensures delivered == Flatten(ws)
  {
    hide Plaintexts;
    var bodies, plain, frames, held :|
      && DecryptedAs(k, bodies, plain, frames) && middle == frames + held
      && (Partial(held) || held == LE32(0)) && delivered == Flatten(plain);
    ShortFrames(k, ws);
    NoEmptyFrame(k, ws, bodies);
    FramesWhole(bodies, held, Ciphertexts(k, ws));
    DecryptsBack(k, ws);
  }

  /** Once all writes are on the wire and the reader has drained it, everything has been read. */
  lemma DrainedReadIsAll(c: BlockCodec, k: Cipher, ws: seq<Bytes>, sent: Bytes, middle: Bytes, delivered: Bytes)
    requires LawfulCipher(k) && Carriable(k, ws)
    requires Encoded(c, Cuts(AesFrames(k, ws)), sent)
    requires DrainedBelow(c, sent, middle) && DrainedAbove(k, middle, delivered)
    ensures delivered == Flatten(ws)
  {
    DrainedMiddle(c, k, ws, sent, middle);
    DrainedTop(k, ws, middle, delivered);
  }

  lemma NoEmptyFrame(k: Cipher, ws: seq<Bytes>, bodies: seq<Bytes>)
    requires LawfulCipher(k) && AllFramable(bodies) && AllFramable(Ciphertexts(k, ws))
    ensures Frames(bodies) + LE32(0) != Frames(Ciphertexts(k, ws))
  {
    var es := Ciphertexts(k, ws);
    CiphertextsLong(k, ws);
    if bodies <= es {
      var rest := es[|bodies|..];
      assert es == bodies + rest;
      FramesConcat(bodies, rest);
      if rest != [] {
        FramesHead(rest);
        assert |rest[0]| >= 16;
      }
    } else if Frames(bodies) + LE32(0) <= Frames(es) {
      FramesPrefix(bodies, LE32(0), es);
    }
  }

  /** No frame of a proper sender says that it is empty. */
  lemma NoFrameIsEmpty(k: Cipher, ws: seq<Bytes>, bodies: seq<Bytes>)
    requires LawfulCipher(k) && AllFramable(bodies) && AllFramable(Ciphertexts(k, ws))
    ensures !(Frames(bodies) + LE32(0) <= Frames(Ciphertexts(k, ws)))
  {
    hide LE32, FromLE32;
    var es := Ciphertexts(k, ws);
    CiphertextsLong(k, ws);
    if Frames(bodies) + LE32(0) <= Frames(es) {
      SizeIsThatOfAPayload(bodies, LE32(0), es);
      FromLE32OfLE32(0);
    }
  }

  lemma {:induction false} CiphertextsLong(k: Cipher, ws: seq<Bytes>)
    requires LawfulCipher(k)
    ensures forall i :: 0 <= i < |ws| ==> |Ciphertexts(k, ws)[i]| >= 16
  {
    if |ws| > 0 {
      CiphertextsLong(k, ws[..|ws| - 1]);
      assert |k.enc(ws[|ws| - 1])| == PaddedLen(|ws[|ws| - 1]|);
    }
  }

  /**
   A write of 2016 to 2031 bytes makes a frame of 2036 bytes: its second block ends at ring offset
   2036, where only the reader starts over. Whatever is written next is out of step.
   */
  lemma TwoThousandBytesMisalign(k: Cipher, w: Bytes, next: Bytes)
    requires LawfulCipher(k) && 2016 <= |w| < 2032
    ensures !AvoidsGap(Cuts(AesFrames(k, [w, next])))
  {
    var f, g := AesFrame(k, w), AesFrame(k, next);
    ShortFrame(k, w);
    assert |k.enc(w)| == 2032 && |f| == 2036;
    CutsOfTwo(k, w, next);
    var b0, b1 := f[..MAX_BLOCK], f[MAX_BLOCK..];
    assert Chunks(b1) == [b1] && Chunks(f) == [b0] + Chunks(b1);
    var all := Cuts(AesFrames(k, [w, next]));
    assert all[..2] == [b0, b1] && |all| > 2;
    BoundaryAt2036(b0, b1);
    assert EncOffset(all[..2]) == 2036;
  }

  lemma CutsOfTwo(k: Cipher, w: Bytes, next: Bytes)
    ensures Cuts(AesFrames(k, [w, next])) == Chunks(AesFrame(k, w)) + Chunks(AesFrame(k, next))
  {
    hide Chunks;
    var f, g := AesFrame(k, w), AesFrame(k, next);
    AesFramesSnoc(k, [w], next);
    AesFramesSnoc(k, [], w);
    assert [w] + [next] == [w, next] && [] + [w] == [w];
    CutsSnoc([f], g);
    CutsSnoc([], f);
    assert [] + [f] == [f];
    assert AesFrames(k, [w, next]) == [f] + [g];
  }

  lemma BoundaryAt2036(b0: Bytes, b1: Bytes)
    requires |b0| == 1024 && |b1| == 1012
    ensures EncOffset([b0, b1]) == 2036
  {
    var one := [b0];
    assert one[..0] == [];
    assert EncOffset(one) == EncNext(EncOffset(one[..0]), |b0|) == 1024;
    assert [b0, b1][..1] == one;
  }
}
