/**
 What goes over the wire when blocks are compressed one after the other through a ring buffer
 (src/core/compress/lz4/mod.rs), as functions of the sequence of blocks.

 The LZ4 library keeps a dictionary: what it writes for a block depends on the blocks before it
 and on the places in the ring they were put to. A codec is therefore a pair of functions of that
 history; it is lawful when decoding under the very history of the encoder gives the block back.
 Nothing is promised for any other history.
 */
module Lz4Spec {
  import opened Common
  import opened Framing

  const MAX_BLOCK: nat := 1024     // lz4_compress_max_bytes
  const RING: nat := 3072          // 1024 * 2 + 1024

  /** The library's worst case for `n` input bytes. */
  function CompressBound(n: nat): nat {
    n + n / 255 + 16
  }

  /** A block at the place of the ring it was copied or decompressed to. */
  datatype Place = Place(off: nat, data: Bytes)

  datatype BlockCodec = BlockCodec(
    enc: (seq<Place>, nat, Bytes) -> Bytes,
    dec: (seq<Place>, nat, Bytes) -> Option<Bytes>
  )

  ghost predicate Lawful(c: BlockCodec) {
    && (forall h: seq<Place>, off: nat, b: Bytes {:trigger c.enc(h, off, b)} | |b| <= MAX_BLOCK ::
          && |c.enc(h, off, b)| <= CompressBound(MAX_BLOCK)
          && (b != [] ==> c.enc(h, off, b) != [] && c.dec(h, off, c.enc(h, off, b)) == Some(b)))
    && SafeDecoder(c)
  }

  /** `LZ4_decompress_safe_continue` never produces more than it was given room for. */
  ghost predicate SafeDecoder(c: BlockCodec) {
    forall h: seq<Place>, off: nat, f: Bytes {:trigger c.dec(h, off, f)} ::
      c.dec(h, off, f).Some? ==> |c.dec(h, off, f).value| <= MAX_BLOCK
  }

  // ---- Where blocks lie in the two rings ----

  /** The writer's ring starts over when less than a block is left. */
  function EncNext(off: nat, n: nat): (next: nat)
    ensures next < RING - MAX_BLOCK
  {
    if off + n >= RING - MAX_BLOCK then 0 else off + n
  }

  /** The reader's ring starts over when less than a whole compressed block would be left. */
  function DecNext(off: nat, n: nat): (next: nat)
    ensures next < RING - CompressBound(MAX_BLOCK)
  {
    if off + n >= RING - CompressBound(MAX_BLOCK) then 0 else off + n
  }

  function EncOffset(blocks: seq<Bytes>): (off: nat)
    ensures off < RING - MAX_BLOCK
  {
    if |blocks| == 0 then 0 else EncNext(EncOffset(blocks[..|blocks| - 1]), |blocks[|blocks| - 1]|)
  }

  function DecOffset(blocks: seq<Bytes>): (off: nat)
    ensures off < RING - CompressBound(MAX_BLOCK)
  {
    if |blocks| == 0 then 0 else DecNext(DecOffset(blocks[..|blocks| - 1]), |blocks[|blocks| - 1]|)
  }

  function EncHistory(blocks: seq<Bytes>): seq<Place> {
    if |blocks| == 0 then [] else
    var init := blocks[..|blocks| - 1];
    EncHistory(init) + [Place(EncOffset(init), blocks[|blocks| - 1])]
  }

  function DecHistory(blocks: seq<Bytes>): seq<Place> {
    if |blocks| == 0 then [] else
    var init := blocks[..|blocks| - 1];
    DecHistory(init) + [Place(DecOffset(init), blocks[|blocks| - 1])]
  }

  /** The blocks since the ring last started over, which lie end to end from its beginning. */
  function EncLap(blocks: seq<Bytes>): (lap: Bytes)
    ensures |lap| == EncOffset(blocks)
  {
    if |blocks| == 0 then [] else
    var init, b := blocks[..|blocks| - 1], blocks[|blocks| - 1];
    if EncOffset(blocks) == 0 then [] else EncLap(init) + b
  }

  function DecLap(blocks: seq<Bytes>): (lap: Bytes)
    ensures |lap| == DecOffset(blocks)
  {
    if |blocks| == 0 then [] else
    var init, b := blocks[..|blocks| - 1], blocks[|blocks| - 1];
    if DecOffset(blocks) == 0 then [] else DecLap(init) + b
  }

  // ---- How writes are cut into blocks ----

  /** Consecutive blocks of 1024 bytes and a last one of at most that; one empty block for nothing. */
  function Chunks(buf: Bytes): (blocks: seq<Bytes>)
    ensures |blocks| > 0 && BlocksFit(blocks)
    ensures buf != [] ==> BlocksOk(blocks)
  {
    if |buf| <= MAX_BLOCK then [buf] else [buf[..MAX_BLOCK]] + Chunks(buf[MAX_BLOCK..])
  }

  /** The blocks that cutting the buffer from position `at` on gives, in the middle of a write. */
  ghost function Uncut(buf: Bytes, at: nat, started: bool): seq<Bytes>
    requires at <= |buf|
  {
    if started && at == |buf| then [] else Chunks(buf[at..])
  }

  /** How many bytes the next block takes. */
  function NextLen(buf: Bytes, at: nat): nat
    requires at <= |buf|
  {
    if |buf| - at < MAX_BLOCK then |buf| - at else MAX_BLOCK
  }

  lemma UncutNext(blocks: seq<Bytes>, buf: Bytes, at: nat)
    requires at < |buf| || (at == 0 && buf == [])
    ensures var n := NextLen(buf, at);
            blocks + Uncut(buf, at, false) == (blocks + [buf[at..at + n]]) + Uncut(buf, at + n, true)
  {
    var n := NextLen(buf, at);
    var rest := buf[at..];
    assert rest[..n] == buf[at..at + n];
    if at + n == |buf| {
      assert rest == buf[at..at + n];
      assert Chunks(rest) == [rest];
    } else {
      assert rest[n..] == buf[at + n..];
      assert Chunks(rest) == [rest[..n]] + Chunks(rest[n..]);
    }
    assert blocks + ([buf[at..at + n]] + Uncut(buf, at + n, true))
        == (blocks + [buf[at..at + n]]) + Uncut(buf, at + n, true);
  }

  lemma {:induction false} ChunksFlatten(buf: Bytes)
    ensures Flatten(Chunks(buf)) == buf
    decreases |buf|
  {
    if |buf| <= MAX_BLOCK {
      assert [buf][..0] == [];
    } else {
      ChunksFlatten(buf[MAX_BLOCK..]);
      FlattenConcat([buf[..MAX_BLOCK]], Chunks(buf[MAX_BLOCK..]));
      assert [buf[..MAX_BLOCK]][..0] == [];
    }
  }

  /** The blocks of a sequence of writes: each write is cut on its own. */
  function Cuts(writes: seq<Bytes>): (blocks: seq<Bytes>)
    ensures BlocksFit(blocks)
  {
    if |writes| == 0 then [] else Cuts(writes[..|writes| - 1]) + Chunks(writes[|writes| - 1])
  }

  lemma CutsSnoc(writes: seq<Bytes>, w: Bytes)
    ensures Cuts(writes + [w]) == Cuts(writes) + Chunks(w)
  {
    assert (writes + [w])[..|writes|] == writes;
  }

  predicate NonEmpty(writes: seq<Bytes>) {
    forall i :: 0 <= i < |writes| ==> writes[i] != []
  }

  lemma {:induction false} CutsFlatten(writes: seq<Bytes>)
    ensures Flatten(Cuts(writes)) == Flatten(writes)
    ensures NonEmpty(writes) ==> BlocksOk(Cuts(writes))
  {
    if |writes| > 0 {
      var init, w := writes[..|writes| - 1], writes[|writes| - 1];
      CutsFlatten(init);
      ChunksFlatten(w);
      FlattenConcat(Cuts(init), Chunks(w));
    }
  }

  lemma {:induction false} CutsPrefix(writes: seq<Bytes>, k: nat)
    requires k <= |writes|
    ensures Cuts(writes[..k]) <= Cuts(writes)
  {
    if k < |writes| {
      var init := writes[..|writes| - 1];
      CutsPrefix(init, k);
      assert init[..k] == writes[..k];
    } else {
      assert writes[..k] == writes;
    }
  }

  // ---- One-shot encoder and decoder ----

  /** What the library makes of the last block of `blocks`. */
  function Payload(c: BlockCodec, blocks: seq<Bytes>): Bytes
    requires |blocks| > 0
  {
    var init := blocks[..|blocks| - 1];
    c.enc(EncHistory(init), EncOffset(init), blocks[|blocks| - 1])
  }

  function Payloads(c: BlockCodec, blocks: seq<Bytes>): (ps: seq<Bytes>)
    ensures |ps| == |blocks|
  {
    if |blocks| == 0 then [] else Payloads(c, blocks[..|blocks| - 1]) + [Payload(c, blocks)]
  }

  /** The blocks that a sequence of payloads decodes to, or None when the decoder rejects one. */
  function Decoded(c: BlockCodec, ps: seq<Bytes>): (r: Option<seq<Bytes>>)
    ensures r.Some? ==> |r.value| == |ps|
  {
    if |ps| == 0 then Some([]) else
    var before := Decoded(c, ps[..|ps| - 1]);
    if before.None? then None else
    var b := c.dec(DecHistory(before.value), DecOffset(before.value), ps[|ps| - 1]);
    if b.None? || b.value == [] then None else Some(before.value + [b.value])
  }

  /** Blocks that fit the writer's limit; only the empty write makes an empty one. */
  predicate BlocksFit(blocks: seq<Bytes>) {
    forall i :: 0 <= i < |blocks| ==> |blocks[i]| <= MAX_BLOCK
  }

  predicate BlocksOk(blocks: seq<Bytes>) {
    forall i :: 0 <= i < |blocks| ==> 0 < |blocks[i]| <= MAX_BLOCK
  }

  /** Before every block that was written, both rings stand at the same place. */
  ghost predicate InStep(blocks: seq<Bytes>) {
    forall k :: 0 <= k < |blocks| ==> EncOffset(blocks[..k]) == DecOffset(blocks[..k])
  }

  /** No block but the last ends where only the reader's ring starts over. */
  ghost predicate AvoidsGap(blocks: seq<Bytes>) {
    forall k :: 0 < k < |blocks| ==> EncOffset(blocks[..k]) < RING - CompressBound(MAX_BLOCK)
  }

  /** One more block: what the two rings, the histories and the payloads become. */
  lemma BlockAppended(c: BlockCodec, blocks: seq<Bytes>, b: Bytes)
    ensures var more := blocks + [b];
            && EncOffset(more) == EncNext(EncOffset(blocks), |b|)
            && DecOffset(more) == DecNext(DecOffset(blocks), |b|)
            && EncHistory(more) == EncHistory(blocks) + [Place(EncOffset(blocks), b)]
            && DecHistory(more) == DecHistory(blocks) + [Place(DecOffset(blocks), b)]
            && EncLap(more) == (if EncOffset(more) == 0 then [] else EncLap(blocks) + b)
            && DecLap(more) == (if DecOffset(more) == 0 then [] else DecLap(blocks) + b)
            && Payloads(c, more) == Payloads(c, blocks) + [c.enc(EncHistory(blocks), EncOffset(blocks), b)]
  {
    assert (blocks + [b])[..|blocks|] == blocks;
  }

  lemma {:induction false} PayloadsSmall(c: BlockCodec, blocks: seq<Bytes>)
    requires Lawful(c) && BlocksFit(blocks)
    ensures forall i :: 0 <= i < |blocks| ==> |Payloads(c, blocks)[i]| <= CompressBound(MAX_BLOCK)
    ensures forall i :: 0 <= i < |blocks| && blocks[i] != [] ==> Payloads(c, blocks)[i] != []
    ensures AllFramable(Payloads(c, blocks))
  {
    if |blocks| > 0 {
      var init := blocks[..|blocks| - 1];
      assert BlocksFit(init);
      PayloadsSmall(c, init);
    }
  }

  /** The bytes that have to go over the wire for these blocks. */
  ghost predicate Encoded(c: BlockCodec, blocks: seq<Bytes>, frames: Bytes) {
    && Lawful(c) && BlocksFit(blocks)
    && AllFramable(Payloads(c, blocks))
    && frames == Frames(Payloads(c, blocks))
  }

  lemma EncodedSnoc(c: BlockCodec, blocks: seq<Bytes>, frames: Bytes, b: Bytes, payload: Bytes)
    requires Encoded(c, blocks, frames) && |b| <= MAX_BLOCK
    requires payload == c.enc(EncHistory(blocks), EncOffset(blocks), b)
    ensures Framable(payload) && Encoded(c, blocks + [b], frames + Frame(payload))
  {
    BlockAppended(c, blocks, b);
    FramesSnoc(Payloads(c, blocks), payload);
  }

  /** The payloads in `frames` decode to `blocks`. */
  ghost predicate DecodedAs(c: BlockCodec, payloads: seq<Bytes>, blocks: seq<Bytes>, frames: Bytes) {
    && SafeDecoder(c)
    && AllFramable(payloads)
    && Decoded(c, payloads) == Some(blocks)
    && frames == Frames(payloads)
  }

  lemma DecodedAsSnoc(c: BlockCodec, payloads: seq<Bytes>, blocks: seq<Bytes>, frames: Bytes, p: Bytes, b: Bytes)
    requires DecodedAs(c, payloads, blocks, frames) && Framable(p)
    requires c.dec(DecHistory(blocks), DecOffset(blocks), p) == Some(b) && b != []
    ensures DecodedAs(c, payloads + [p], blocks + [b], frames + Frame(p))
  {
    FramesSnoc(payloads, p);
    assert (payloads + [p])[..|payloads|] == payloads;
  }

  /** What the reader refuses after the blocks so far: a size out of range, or a bad payload. */
  ghost predicate Rejected(c: BlockCodec, blocks: seq<Bytes>, x: Bytes) {
    || (|x| == 4 && !(0 < FromLE32(x) <= CompressBound(MAX_BLOCK)))
    || (exists p :: Framable(p) && x == Frame(p) && RejectedPayload(c, blocks, p))
  }

  ghost predicate RejectedPayload(c: BlockCodec, blocks: seq<Bytes>, p: Bytes) {
    c.dec(DecHistory(blocks), DecOffset(blocks), p) in {None, Some([])}
  }

  lemma {:induction false} PayloadsPrefix(c: BlockCodec, blocks: seq<Bytes>, k: nat)
    requires k <= |blocks|
    ensures Payloads(c, blocks[..k]) == Payloads(c, blocks)[..k]
  {
    if k < |blocks| {
      var init := blocks[..|blocks| - 1];
      PayloadsPrefix(c, init, k);
      assert init[..k] == blocks[..k];
    } else {
      assert blocks[..k] == blocks;
    }
  }

  // ---- The two rings keep in step exactly when blocks avoid the gap between the two wrap rules ----

  lemma {:induction false} OffsetsAgree(blocks: seq<Bytes>)
    requires forall k :: 0 < k <= |blocks| ==> EncOffset(blocks[..k]) < RING - CompressBound(MAX_BLOCK)
    ensures EncOffset(blocks) == DecOffset(blocks)
  {
    if |blocks| > 0 {
      var init := blocks[..|blocks| - 1];
      forall k | 0 < k <= |init| ensures EncOffset(init[..k]) < RING - CompressBound(MAX_BLOCK) {
        assert init[..k] == blocks[..k];
      }
      OffsetsAgree(init);
      assert blocks[..|blocks|] == blocks;
      assert EncOffset(blocks[..|blocks|]) < RING - CompressBound(MAX_BLOCK);
    }
  }

  lemma InStepIffAvoidsGap(blocks: seq<Bytes>)
    requires BlocksOk(blocks)
    ensures InStep(blocks) <==> AvoidsGap(blocks)
  {
    if AvoidsGap(blocks) {
      forall k | 0 <= k < |blocks| ensures EncOffset(blocks[..k]) == DecOffset(blocks[..k]) {
        forall j | 0 < j <= |blocks[..k]| ensures EncOffset(blocks[..k][..j]) < RING - CompressBound(MAX_BLOCK) {
          assert blocks[..k][..j] == blocks[..j];
        }
        OffsetsAgree(blocks[..k]);
      }
    }
  }

  lemma {:induction false} InStepHistories(blocks: seq<Bytes>)
    requires InStep(blocks)
    ensures EncHistory(blocks) == DecHistory(blocks)
  {
    if |blocks| > 0 {
      var init := blocks[..|blocks| - 1];
      InStepPrefix(blocks, |blocks| - 1);
      InStepHistories(init);
      assert EncOffset(blocks[..|blocks| - 1]) == DecOffset(blocks[..|blocks| - 1]);
    }
  }

  lemma InStepPrefix(blocks: seq<Bytes>, k: nat)
    requires InStep(blocks) && k <= |blocks|
    ensures InStep(blocks[..k])
  {
    forall j | 0 <= j < k ensures EncOffset(blocks[..k][..j]) == DecOffset(blocks[..k][..j]) {
      assert blocks[..k][..j] == blocks[..j];
    }
  }

  // ---- Round trip ----

  lemma {:induction false} InStepDecodes(c: BlockCodec, blocks: seq<Bytes>)
    requires Lawful(c) && BlocksOk(blocks) && InStep(blocks)
    ensures Decoded(c, Payloads(c, blocks)) == Some(blocks)
  {
    if |blocks| > 0 {
      var init := blocks[..|blocks| - 1];
      InStepPrefix(blocks, |blocks| - 1);
      InStepDecodes(c, init);
      InStepHistories(init);
      assert EncOffset(blocks[..|blocks| - 1]) == DecOffset(blocks[..|blocks| - 1]);
      var ps := Payloads(c, blocks);
      assert ps[..|ps| - 1] == Payloads(c, init);
      assert init + [blocks[|blocks| - 1]] == blocks;
    }
  }

  /** A lawful codec that notices whether the two rings start over together. */
  function LapCodec(): BlockCodec {
    BlockCodec(
      (h: seq<Place>, off: nat, b: Bytes) => [if off == 0 then 0 else 1] + b,
      (h: seq<Place>, off: nat, f: Bytes) =>
        if 1 < |f| <= 1 + MAX_BLOCK && f[0] == (if off == 0 then 0 else 1) then Some(f[1..]) else None
    )
  }

  lemma LapCodecLawful()
    ensures Lawful(LapCodec())
  {
    var c := LapCodec();
    forall h: seq<Place>, off: nat, b: Bytes | |b| <= MAX_BLOCK
      ensures |c.enc(h, off, b)| <= CompressBound(MAX_BLOCK)
      ensures b != [] ==> c.enc(h, off, b) != [] && c.dec(h, off, c.enc(h, off, b)) == Some(b)
    {
      assert c.enc(h, off, b)[1..] == b;
    }
  }

  /** Out of step, some lawful codec cannot read its own output back. */
  lemma OutOfStepFails(blocks: seq<Bytes>)
    requires BlocksOk(blocks) && !AvoidsGap(blocks)
    ensures Decoded(LapCodec(), Payloads(LapCodec(), blocks)) != Some(blocks)
  {
    hide Decoded, Payloads, EncOffset, LapCodec;
    var k :| 0 < k < |blocks| && EncOffset(blocks[..k]) >= RING - CompressBound(MAX_BLOCK);
    k := FirstGap(blocks, k);
    GapMismatch(blocks, k);
    PrefixRefutes(LapCodec(), blocks, k + 1);
  }

  lemma GapMismatch(blocks: seq<Bytes>, k: nat)
    requires 0 < k < |blocks| && EncOffset(blocks[..k]) >= RING - CompressBound(MAX_BLOCK)
    requires forall j :: 0 < j < k ==> EncOffset(blocks[..j]) < RING - CompressBound(MAX_BLOCK)
    ensures Decoded(LapCodec(), Payloads(LapCodec(), blocks[..k + 1])) != Some(blocks[..k + 1])
  {
    hide Decoded, Payloads, EncOffset, DecOffset, LapCodec;
    GapResets(blocks, k);
    LapMismatch(blocks[..k], blocks[k]);
    assert blocks[..k] + [blocks[k]] == blocks[..k + 1];
  }

  /** A prefix that does not survive the round trip dooms the whole. */
  lemma PrefixRefutes(c: BlockCodec, blocks: seq<Bytes>, k: nat)
    requires k <= |blocks|
    requires Decoded(c, Payloads(c, blocks[..k])) != Some(blocks[..k])
    ensures Decoded(c, Payloads(c, blocks)) != Some(blocks)
  {
    if Decoded(c, Payloads(c, blocks)) == Some(blocks) {
      PayloadsPrefix(c, blocks, k);
      DecodedPrefix(c, Payloads(c, blocks), k);
      assert false;
    }
  }

  lemma DecodedSnoc(c: BlockCodec, ps: seq<Bytes>, p: Bytes)
    requires Decoded(c, ps + [p]).Some?
    ensures Decoded(c, ps).Some?
    ensures var before := Decoded(c, ps).value;
            var b := c.dec(DecHistory(before), DecOffset(before), p);
            b.Some? && Decoded(c, ps + [p]) == Some(before + [b.value])
  {
    assert (ps + [p])[..|ps|] == ps;
  }

  lemma LapMismatch(before: seq<Bytes>, b: Bytes)
    requires EncOffset(before) != 0 && DecOffset(before) == 0
    ensures Decoded(LapCodec(), Payloads(LapCodec(), before + [b])) != Some(before + [b])
  {
    hide Payloads, Decoded, EncOffset, DecOffset, EncHistory, DecHistory, EncLap, DecLap;
    var c := LapCodec();
    BlockAppended(c, before, b);
    var p := c.enc(EncHistory(before), EncOffset(before), b);
    assert p[0] == 1;
    assert (before + [b])[..|before|] == before;
    if Decoded(c, Payloads(c, before) + [p]) == Some(before + [b]) {
      DecodedSnoc(c, Payloads(c, before), p);
      assert false;
    }
  }

  /** The first block boundary that falls into the gap. */
  lemma FirstGap(blocks: seq<Bytes>, k: nat) returns (first: nat)
    requires 0 < k < |blocks| && EncOffset(blocks[..k]) >= RING - CompressBound(MAX_BLOCK)
    ensures 0 < first < |blocks| && EncOffset(blocks[..first]) >= RING - CompressBound(MAX_BLOCK)
    ensures forall j :: 0 < j < first ==> EncOffset(blocks[..j]) < RING - CompressBound(MAX_BLOCK)
  {
    first := 1;
    while EncOffset(blocks[..first]) < RING - CompressBound(MAX_BLOCK)
      invariant 0 < first <= k
      invariant forall j :: 0 < j < first ==> EncOffset(blocks[..j]) < RING - CompressBound(MAX_BLOCK)
      decreases k - first
    {
      first := first + 1;
    }
  }

  lemma GapResets(blocks: seq<Bytes>, k: nat)
    requires 0 < k < |blocks| && EncOffset(blocks[..k]) >= RING - CompressBound(MAX_BLOCK)
    requires forall j :: 0 < j < k ==> EncOffset(blocks[..j]) < RING - CompressBound(MAX_BLOCK)
    ensures DecOffset(blocks[..k]) == 0
  {
    var init := blocks[..k - 1];
    assert blocks[..k][..k - 1] == init;
    forall j | 0 < j <= |init| ensures EncOffset(init[..j]) < RING - CompressBound(MAX_BLOCK) {
      assert init[..j] == blocks[..j];
    }
    OffsetsAgree(init);
  }

  lemma {:induction false} DecodedPrefix(c: BlockCodec, ps: seq<Bytes>, k: nat)
    requires Decoded(c, ps).Some? && k <= |ps|
    ensures Decoded(c, ps[..k]) == Some(Decoded(c, ps).value[..k])
  {
    if k < |ps| {
      var init := ps[..|ps| - 1];
      DecodedPrefix(c, init, k);
      assert init[..k] == ps[..k];
      assert Decoded(c, ps).value[..k] == Decoded(c, init).value[..k];
    } else {
      assert ps[..k] == ps;
      assert Decoded(c, ps).value[..k] == Decoded(c, ps).value;
    }
  }

  /**
   Compression is lossless, whatever the library does within its contract, exactly when no block
   but the last ends at a ring offset from 2028 up to 2047, where only the reader starts over.
   */
  lemma LosslessIffAvoidsGap(blocks: seq<Bytes>)
    requires BlocksOk(blocks)
    ensures (forall c :: Lawful(c) ==> Decoded(c, Payloads(c, blocks)) == Some(blocks)) <==> AvoidsGap(blocks)
  {
    InStepIffAvoidsGap(blocks);
    if AvoidsGap(blocks) {
      forall c | Lawful(c) ensures Decoded(c, Payloads(c, blocks)) == Some(blocks) {
        InStepDecodes(c, blocks);
      }
    } else {
      LapCodecLawful();
      OutOfStepFails(blocks);
    }
  }
}
