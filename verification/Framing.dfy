/** Length-prefixed frames: four little-endian bytes, then as many bytes as they say. */
module Framing {
  import opened Common

  function LE32(n: u32): (s: Bytes)
    ensures |s| == 4
  {
    [n % 256, n / 256 % 256, n / 65536 % 256, n / 16777216 % 256]
  }

  function FromLE32(s: Bytes): u32
    requires |s| == 4
  {
    var a: int, b: int, c: int, d: int := s[0], s[1], s[2], s[3];
    a + 256 * b + 65536 * c + 16777216 * d
  }

  lemma FromLE32OfLE32(n: u32)
    ensures FromLE32(LE32(n)) == n
  {
    var a, b, c, d := n % 256, n / 256 % 256, n / 65536 % 256, n / 16777216 % 256;
    assert n / 65536 == n / 256 / 256 && n / 16777216 == n / 256 / 256 / 256;
    assert n == 256 * (n / 256) + a;
    assert n / 256 == 256 * (n / 256 / 256) + b;
    assert n / 256 / 256 == 256 * (n / 256 / 256 / 256) + c;
    assert n / 256 / 256 / 256 < 256;
  }

  lemma DivModStep(low: byte, high: nat)
    ensures (low + 256 * high) % 256 == low && (low + 256 * high) / 256 == high
  {
  }

  lemma LE32OfFromLE32(s: Bytes)
    requires |s| == 4
    ensures LE32(FromLE32(s)) == s
  {
    var n: int := FromLE32(s);
    var h3: nat := s[3];
    var h2: nat := s[2] as int + 256 * h3;
    var h1: nat := s[1] as int + 256 * h2;
    DivModStep(s[2], h3);
    DivModStep(s[1], h2);
    DivModStep(s[0], h1);
    assert n == s[0] as int + 256 * h1;
    assert n / 256 == h1;
    assert n / 65536 == h1 / 256 == h2;
    assert n / 16777216 == h2 / 256 == h3;
  }

  lemma LE32Injective(m: u32, n: u32)
    requires LE32(m) == LE32(n)
    ensures m == n
  {
    FromLE32OfLE32(m);
    FromLE32OfLE32(n);
  }

  /** A payload short enough for its length to fit the prefix. */
  predicate Framable(p: Bytes) {
    |p| < 0x1_0000_0000
  }

  function Frame(p: Bytes): (f: Bytes)
    requires Framable(p)
    ensures |f| == 4 + |p|
  {
    LE32(|p|) + p
  }

  /** The bytes of a frame, lowest byte of the length first. */
  lemma FrameOnTheWire(p: Bytes)
    requires Framable(p)
    ensures Frame(p) == [|p| % 256, |p| / 256 % 256, |p| / 65536 % 256, |p| / 16777216] + p
    ensures forall a: byte, b: byte, c: byte, e: byte ::
              FromLE32([a, b, c, e]) == a as int + 256 * (b as int) + 65536 * (c as int) + 16777216 * (e as int)
  {
    assert |p| / 16777216 < 256;
  }

  predicate AllFramable(ps: seq<Bytes>) {
    forall i :: 0 <= i < |ps| ==> Framable(ps[i])
  }

  function Frames(ps: seq<Bytes>): Bytes
    requires AllFramable(ps)
  {
    if |ps| == 0 then [] else Frames(ps[..|ps| - 1]) + Frame(ps[|ps| - 1])
  }

  lemma FramesSnoc(ps: seq<Bytes>, p: Bytes)
    requires AllFramable(ps) && Framable(p)
    ensures AllFramable(ps + [p])
    ensures Frames(ps + [p]) == Frames(ps) + Frame(p)
  {
    assert (ps + [p])[..|ps|] == ps;
  }

  lemma {:induction false} FramesConcat(ps: seq<Bytes>, qs: seq<Bytes>)
    requires AllFramable(ps) && AllFramable(qs)
    ensures AllFramable(ps + qs)
    ensures Frames(ps + qs) == Frames(ps) + Frames(qs)
  {
    if |qs| == 0 {
      assert ps + qs == ps;
    } else {
      hide Frames, Frame;
      var init, q := qs[..|qs| - 1], qs[|qs| - 1];
      FramesConcat(ps, init);
      FramesSnoc(init, q);
      FramesSnoc(ps + init, q);
      assert init + [q] == qs && ps + init + [q] == ps + qs;
      Assoc(Frames(ps), Frames(init), Frame(q));
    }
  }

  lemma {:induction false} FramesHead(ps: seq<Bytes>)
    requires AllFramable(ps) && |ps| > 0
    ensures Frames(ps) == Frame(ps[0]) + Frames(ps[1..])
  {
    var init := ps[..|ps| - 1];
    if |ps| == 1 {
      assert Frames(init) == [];
    } else {
      FramesHead(init);
      assert init[1..] == ps[1..][..|ps| - 2];
    }
  }

  /** The beginning of a frame that is not complete yet. */
  ghost predicate Partial(x: Bytes) {
    |x| < 4 || |x| < 4 + FromLE32(x[..4])
  }

  /**
   Frames are self-delimiting: if a stream of frames, cut anywhere, reads as some complete frames
   and an incomplete one, then those are the first of the frames that were written.
   */
  lemma {:induction false} FramesPrefix(ps: seq<Bytes>, x: Bytes, qs: seq<Bytes>)
    requires AllFramable(ps) && AllFramable(qs)
    requires Frames(ps) + x <= Frames(qs)
    ensures ps <= qs
    decreases |ps|
  {
    if |ps| > 0 {
      var init, p := ps[..|ps| - 1], ps[|ps| - 1];
      assert Frames(init) + (Frame(p) + x) == Frames(ps) + x;
      FramesPrefix(init, Frame(p) + x, qs);
      var rest := qs[|init|..];
      assert qs == init + rest;
      FramesConcat(init, rest);
      PrefixCancel(Frames(init), Frame(p) + x, Frames(rest));
      FramesHead(rest);
      FrameUnique(p, x, rest[0], Frames(rest[1..]));
      assert ps == init + [p];
    }
  }

  lemma PrefixCancel(a: Bytes, b: Bytes, c: Bytes)
    requires a + b <= a + c
    ensures b <= c
  {
    assert b == (a + b)[|a|..];
    assert (a + c)[..|a + b|] == a + b;
    assert c == (a + c)[|a|..];
    assert c[..|b|] == (a + c)[|a|..|a| + |b|];
    assert (a + b)[|a|..] == (a + c)[..|a + b|][|a|..];
  }

  /** A stream starts with at most one frame. */
  lemma FrameUnique(p: Bytes, x: Bytes, q: Bytes, y: Bytes)
    requires Framable(p) && Framable(q)
    requires Frame(p) + x <= Frame(q) + y
    ensures p == q
  {
    var s := Frame(q) + y;
    assert s[..4] == LE32(|q|);
    assert s[..4] == (Frame(p) + x)[..4] == LE32(|p|);
    LE32Injective(|p|, |q|);
    assert s[4..4 + |q|] == q;
    assert s[4..4 + |p|] == (Frame(p) + x)[4..4 + |p|] == p;
  }

  /** Cut at the end of what was written, nothing incomplete is left over. */
  lemma FramesWhole(ps: seq<Bytes>, x: Bytes, qs: seq<Bytes>)
    requires AllFramable(ps) && AllFramable(qs)
    requires Frames(ps) + x == Frames(qs) && Partial(x)
    ensures ps == qs && x == []
  {
    FramesPrefix(ps, x, qs);
    var rest := qs[|ps|..];
    assert qs == ps + rest;
    FramesConcat(ps, rest);
    PrefixCancel(Frames(ps), x, Frames(rest));
    if rest != [] {
      FramesHead(rest);
      FromLE32OfLE32(|rest[0]|);
    }
  }
}
