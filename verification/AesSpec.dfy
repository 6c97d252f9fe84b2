/**
 The encrypted stream (src/core/encryption/aes/mod.rs) as a function of the writes: every write is
 one frame, a little-endian u32 length and that many bytes of ciphertext. Each frame starts a new
 CBC encryptor, so a cipher is a pair of functions of single messages.
 */
module AesSpec {
  import opened Common
  import opened Framing

  datatype Cipher = Cipher(enc: Bytes -> Bytes, dec: Bytes -> Option<Bytes>)

  /** Length of a PKCS7-padded message. */
  function PaddedLen(n: nat): nat {
    (n / 16 + 1) * 16
  }

  ghost predicate LawfulCipher(c: Cipher) {
    forall p: Bytes {:trigger c.enc(p)} :: |c.enc(p)| == PaddedLen(|p|) && c.dec(c.enc(p)) == Some(p)
  }

  /** Short enough for the ciphertext's length to fit the prefix. */
  predicate Short(p: Bytes) {
    |p| < 0x1_0000_0000 - 16
  }

  predicate AllShort(ws: seq<Bytes>) {
    forall i :: 0 <= i < |ws| ==> Short(ws[i])
  }

  /** What one write puts out: the length is cast to u32, and so is the number of bytes written. */
  function AesFrame(c: Cipher, p: Bytes): Bytes {
    var e := c.enc(p);
    var m := |e| % 0x1_0000_0000;
    LE32(m) + e[..m]
  }

  function AesFrames(c: Cipher, ws: seq<Bytes>): (fs: seq<Bytes>)
    ensures |fs| == |ws|
  {
    if |ws| == 0 then [] else AesFrames(c, ws[..|ws| - 1]) + [AesFrame(c, ws[|ws| - 1])]
  }

  lemma AesFramesSnoc(c: Cipher, ws: seq<Bytes>, w: Bytes)
    ensures AesFrames(c, ws + [w]) == AesFrames(c, ws) + [AesFrame(c, w)]
  {
    assert (ws + [w])[..|ws|] == ws;
  }

  lemma {:induction false} AesFramesPrefix(c: Cipher, ws: seq<Bytes>, k: nat)
    requires k <= |ws|
    ensures AesFrames(c, ws[..k]) == AesFrames(c, ws)[..k]
  {
    if k < |ws| {
      var init := ws[..|ws| - 1];
      AesFramesPrefix(c, init, k);
      assert init[..k] == ws[..k];
    } else {
      assert ws[..k] == ws;
    }
  }

  function Ciphertexts(c: Cipher, ws: seq<Bytes>): (es: seq<Bytes>)
    ensures |es| == |ws|
  {
    if |ws| == 0 then [] else Ciphertexts(c, ws[..|ws| - 1]) + [c.enc(ws[|ws| - 1])]
  }

  /** What a sequence of ciphertexts decrypts to, or None when one of them does not. */
  function Plaintexts(c: Cipher, es: seq<Bytes>): (r: Option<seq<Bytes>>)
    ensures r.Some? ==> |r.value| == |es|
  {
    if |es| == 0 then Some([]) else
    var before, p := Plaintexts(c, es[..|es| - 1]), c.dec(es[|es| - 1]);
    if before.None? || p.None? then None else Some(before.value + [p.value])
  }

  lemma PlaintextsSnoc(c: Cipher, es: seq<Bytes>, e: Bytes)
    requires Plaintexts(c, es).Some? && c.dec(e).Some?
    ensures Plaintexts(c, es + [e]) == Some(Plaintexts(c, es).value + [c.dec(e).value])
  {
    assert (es + [e])[..|es|] == es;
  }

  /** The ciphertexts in `frames` decrypt to `plain`. */
  ghost predicate DecryptedAs(c: Cipher, bodies: seq<Bytes>, plain: seq<Bytes>, frames: Bytes) {
    AllFramable(bodies) && Plaintexts(c, bodies) == Some(plain) && frames == Frames(bodies)
  }

  lemma DecryptedAsSnoc(c: Cipher, bodies: seq<Bytes>, plain: seq<Bytes>, frames: Bytes, body: Bytes)
    requires DecryptedAs(c, bodies, plain, frames) && Framable(body) && c.dec(body).Some?
    ensures DecryptedAs(c, bodies + [body], plain + [c.dec(body).value], frames + Frame(body))
  {
    PlaintextsSnoc(c, bodies, body);
    FramesSnoc(bodies, body);
  }

  lemma PaddedLenFits(n: nat)
    ensures PaddedLen(n) < 0x1_0000_0000 <==> n < 0x1_0000_0000 - 16
    ensures n < PaddedLen(n) <= n + 16
  {
  }

  lemma ShortFrame(c: Cipher, p: Bytes)
    requires LawfulCipher(c) && Short(p)
    ensures Framable(c.enc(p)) && AesFrame(c, p) == Frame(c.enc(p))
  {
    PaddedLenFits(|p|);
    assert c.enc(p)[..|c.enc(p)|] == c.enc(p);
  }

  lemma {:induction false} ShortFrames(c: Cipher, ws: seq<Bytes>)
    requires LawfulCipher(c) && AllShort(ws)
    ensures AllFramable(Ciphertexts(c, ws)) && Flatten(AesFrames(c, ws)) == Frames(Ciphertexts(c, ws))
  {
    if |ws| > 0 {
      var init := ws[..|ws| - 1];
      ShortFrames(c, init);
      ShortFrame(c, ws[|ws| - 1]);
      FlattenSnoc(AesFrames(c, init), AesFrame(c, ws[|ws| - 1]));
      FramesSnoc(Ciphertexts(c, init), c.enc(ws[|ws| - 1]));
    }
  }

  lemma {:induction false} CiphertextsPrefix(c: Cipher, ws: seq<Bytes>, k: nat)
    requires k <= |ws|
    ensures Ciphertexts(c, ws[..k]) == Ciphertexts(c, ws)[..k]
  {
    if k < |ws| {
      var init := ws[..|ws| - 1];
      CiphertextsPrefix(c, init, k);
      assert init[..k] == ws[..k];
    } else {
      assert ws[..k] == ws;
    }
  }

  lemma {:induction false} DecryptsBack(c: Cipher, ws: seq<Bytes>)
    requires LawfulCipher(c)
    ensures Plaintexts(c, Ciphertexts(c, ws)) == Some(ws)
  {
    if |ws| > 0 {
      var init, w := ws[..|ws| - 1], ws[|ws| - 1];
      DecryptsBack(c, init);
      PlaintextsSnoc(c, Ciphertexts(c, init), c.enc(w));
      assert init + [w] == ws;
    }
  }

  lemma {:induction false} AesFramesNonEmpty(c: Cipher, ws: seq<Bytes>)
    ensures forall i :: 0 <= i < |ws| ==> AesFrames(c, ws)[i] != []
  {
    if |ws| > 0 {
      AesFramesNonEmpty(c, ws[..|ws| - 1]);
    }
  }

  // ---- How long a write may be ----

  /** The first message of a stream and what follows it. */
  function FirstMessage(c: Cipher, s: Bytes): Option<(Bytes, Bytes)> {
    if |s| < 4 || |s| < 4 + FromLE32(s[..4]) then None else
    var n := FromLE32(s[..4]);
    match c.dec(s[4..4 + n])
    case None => None
    case Some(p) => Some((p, s[4 + n..]))
  }

  /** PKCS7 padding without encryption: the plainest lawful cipher. */
  function PaddingCipher(): Cipher {
    Cipher(
      (p: Bytes) => p + seq(16 - |p| % 16, i => 16 - |p| % 16),
      (e: Bytes) =>
        if |e| > 0 && 1 <= e[|e| - 1] <= 16 && e[|e| - 1] <= |e| then Some(e[..|e| - e[|e| - 1]]) else None
    )
  }

  lemma PaddingCipherLawful()
    ensures LawfulCipher(PaddingCipher())
  {
    var c := PaddingCipher();
    forall p: Bytes ensures |c.enc(p)| == PaddedLen(|p|) && c.dec(c.enc(p)) == Some(p) {
      var e := c.enc(p);
      assert e[..|p|] == p;
    }
  }

  /** A write is read back as it was, under every lawful cipher, exactly if it is below 2^32 - 16 bytes. */
  lemma WriteReadsBackIffShort(p: Bytes, rest: Bytes)
    ensures (forall c :: LawfulCipher(c) ==> FirstMessage(c, AesFrame(c, p) + rest) == Some((p, rest))) <==> Short(p)
  {
    if Short(p) {
      forall c | LawfulCipher(c) ensures FirstMessage(c, AesFrame(c, p) + rest) == Some((p, rest)) {
        ShortReadsBack(c, p, rest);
      }
    } else {
      PaddingCipherLawful();
      LongFails(p, rest);
    }
  }

  lemma ShortReadsBack(c: Cipher, p: Bytes, rest: Bytes)
    requires LawfulCipher(c) && Short(p)
    ensures FirstMessage(c, AesFrame(c, p) + rest) == Some((p, rest))
  {
    ShortFrame(c, p);
    var e := c.enc(p);
    var s := Frame(e) + rest;
    FromLE32OfLE32(|e|);
    assert s[..4] == LE32(|e|);
    assert s[4..4 + |e|] == e;
    assert s[4 + |e|..] == rest;
  }

  lemma LongFails(p: Bytes, rest: Bytes)
    requires !Short(p)
    ensures match FirstMessage(PaddingCipher(), AesFrame(PaddingCipher(), p) + rest)
            case None => true
            case Some((q, _)) => |q| < |p|
  {
    var c := PaddingCipher();
    PaddingCipherLawful();
    PaddedLenFits(|p|);
    var e := c.enc(p);
    var m: u32 := |e| % 0x1_0000_0000;
    assert m <= |e| - 0x1_0000_0000 < |p|;
    var s := AesFrame(c, p) + rest;
    FromLE32OfLE32(m);
    assert s[..4] == LE32(m);
    assert |s[4..4 + m]| == m;
  }
}
