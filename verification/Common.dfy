/** Vocabulary shared by every module: bytes, machine words, and the outcome of one poll. */
module Common {

  type byte = b: int | 0 <= b < 256

  const U32_LIMIT: nat := 0x1_0000_0000

  type u32 = x: int | 0 <= x < 0x1_0000_0000

  type Bytes = seq<byte>

  datatype Option<+T> = None | Some(value: T)

  /** The errors the modelled code tells apart. */
  datatype Error =
    | Io                              // the transport failed
    | ConnectionReset
    | UnexpectedEof
    | PacketHead(magic: Bytes)
    | Lz4Compress
    | Lz4Decompress
    | AesUnpad
    | FallbackStrict
    | SocksHead(ver: byte, nmethod: byte)
    | SocksProtocol
    | SocksAuthenticate
    | SocksInvalidAddress
    | SocksBindNotSupport
    | SocksFragment
    | BadForward
    | NoMoreConv
    | Panic                           // an index out of bounds, or an unwrap of nothing

  datatype Result<+T> = Ok(value: T) | Err(error: Error)

  /** What a poll function answers: not yet, or a result. */
  datatype Poll<+T> = Pending | Ready(result: Result<T>)

  /** Concatenation of a sequence of byte strings. */
  function Flatten(parts: seq<Bytes>): (all: Bytes) {
    if |parts| == 0 then [] else Flatten(parts[..|parts| - 1]) + parts[|parts| - 1]
  }

  lemma FlattenSnoc(parts: seq<Bytes>, last: Bytes)
    ensures Flatten(parts + [last]) == Flatten(parts) + last
  {
    assert (parts + [last])[..|parts|] == parts;
  }

  lemma {:induction false} FlattenConcat(a: seq<Bytes>, b: seq<Bytes>)
    ensures Flatten(a + b) == Flatten(a) + Flatten(b)
  {
    if |b| == 0 {
      assert a + b == a;
    } else {
      var init := b[..|b| - 1];
      FlattenConcat(a, init);
      assert (a + b)[..|a + b| - 1] == a + init;
    }
  }

  /** Flattening respects prefixes. */
  lemma FlattenPrefix(a: seq<Bytes>, b: seq<Bytes>)
    requires a <= b
    ensures Flatten(a) <= Flatten(b)
  {
    FlattenConcat(a, b[|a|..]);
    assert b == a + b[|a|..];
  }

  /** Moving the first `n` bytes of what is left behind what was sent keeps the whole. */
  lemma SentMore(sent: Bytes, frame: Bytes, at: nat, n: nat)
    requires at + n <= |frame|
    ensures sent + frame[at..] == (sent + frame[at..][..n]) + frame[at + n..]
  {
    assert frame[at..] == frame[at..][..n] + frame[at + n..];
  }

  lemma Assoc<T>(a: seq<T>, b: seq<T>, c: seq<T>)
    ensures (a + b) + c == a + (b + c)
  {
  }
}
