/** The chunk queue that carries bytes over between reads (src/core/guard/buffer.rs). */
module Buffer {
  import opened Common

  class Buffer {
    var len: nat
    var buf: seq<Bytes>

    ghost predicate Valid()
      reads this
    {
      len == |Flatten(buf)|
    }

    /** The bytes waiting in the queue, oldest first. */
    ghost function Contents(): Bytes
      reads this
    {
      Flatten(buf)
    }

    constructor ()
      ensures Valid() && Contents() == []
    {
      len, buf := 0, [];
    }

    predicate IsEmpty()
      requires Valid()
      reads this
      ensures IsEmpty() <==> Contents() == []
    {
      len == 0
    }

    /** `push_all` and `push_back` of the source differ only in whether they copy. */
    method PushBack(data: Bytes)
      requires Valid()
      modifies this
      ensures Valid() && Contents() == old(Contents()) + data
    {
      FlattenSnoc(buf, data);
      buf := buf + [data];
      len := len + |data|;
    }

    method PushFront(data: Bytes)
      requires Valid()
      modifies this
      ensures Valid() && Contents() == data + old(Contents())
    {
      FlattenCons(data, buf);
      buf := [data] + buf;
      len := len + |data|;
    }

    /**
     Moves as many bytes as there are, or as fit, to `target[from..to]`. Chunks of any size,
     empty ones included, make no difference.
     */
    method ReadToBuffer(target: array<byte>, from: nat, to: nat) returns (readLen: nat)
      requires Valid() && from <= to <= target.Length
      modifies this, target
      ensures Valid()
      ensures readLen == if old(|Contents()|) < to - from then old(|Contents()|) else to - from
      ensures Contents() == old(Contents())[readLen..]
      ensures target[..] == Spliced(old(target[..]), from, old(Contents())[..readLen])
    {
      var remaining: nat := to - from;
      readLen := 0;
      ghost var all := Contents();
      ghost var before := target[..];
      Unspliced(before, from, all);
      while remaining != 0
        invariant readLen <= |all| && from + readLen + remaining <= to
        invariant remaining != 0 ==> from + readLen + remaining == to
        invariant remaining == 0 ==> from + readLen == to || readLen == |all|
        invariant len == |all|
        invariant Contents() == all[readLen..]
        invariant target[..] == Spliced(before, from, all[..readLen])
        decreases remaining, |buf|
      {
        if buf == [] {
          remaining := 0;
        } else {
          var n := TakeChunk(target, from + readLen, remaining);
          SplicedMore(before, from, all, readLen, n);
          readLen := readLen + n;
          remaining := remaining - n;
        }
      }
      if len != 0 {
        len := len - readLen;
      }
    }

    /** One turn of the loop: a chunk, or the part of it that fits; the rest goes back in front. */
    method TakeChunk(target: array<byte>, at: nat, remaining: nat) returns (n: nat)
      requires buf != [] && remaining > 0 && at + remaining <= target.Length
      modifies this`buf, target
      ensures n <= remaining && n <= |old(Contents())|
      ensures n < remaining ==> |buf| < |old(buf)|
      ensures Contents() == old(Contents())[n..]
      ensures target[..] == Spliced(old(target[..]), at, old(Contents())[..n])
    {
      var data := buf[0];
      FlattenCons(data, buf[1..]);
      assert buf == [data] + buf[1..];
      n := if |data| >= remaining then remaining else |data|;
      buf := buf[1..];
      CopyInto(data[..n], target, at);
      assert old(Contents())[..n] == data[..n];
      if n < |data| {
        FlattenCons(data[n..], buf);
        buf := [data[n..]] + buf;
      }
    }
  }

  /** `base` with `data` written over it from position `at`. */
  ghost function Spliced(base: Bytes, at: nat, data: Bytes): (r: Bytes)
    requires at + |data| <= |base|
    ensures |r| == |base|
    ensures r[..at] == base[..at] && r[at..at + |data|] == data && r[at + |data|..] == base[at + |data|..]
  {
    base[..at] + data + base[at + |data|..]
  }

  lemma Unspliced(base: Bytes, at: nat, data: Bytes)
    requires at <= |base|
    ensures Spliced(base, at, data[..0]) == base
  {
  }

  lemma SplicedMore(base: Bytes, at: nat, data: Bytes, k: nat, n: nat)
    requires k + n <= |data| && at + k + n <= |base|
    ensures Spliced(Spliced(base, at, data[..k]), at + k, data[k..][..n]) == Spliced(base, at, data[..k + n])
  {
    assert data[..k + n] == data[..k] + data[k..][..n];
    var s := Spliced(base, at, data[..k]);
    assert s[..at + k] == base[..at] + data[..k];
    assert s[at + k + n..] == base[at + k + n..];
  }

  lemma FlattenCons(head: Bytes, rest: seq<Bytes>)
    ensures Flatten([head] + rest) == head + Flatten(rest)
  {
    FlattenConcat([head], rest);
    assert [head][..0] == [];
  }

  /** `std::ptr::copy` to a place inside an array. */
  method CopyInto(data: Bytes, target: array<byte>, at: nat)
    requires at + |data| <= target.Length
    modifies target
    ensures target[..] == Spliced(old(target[..]), at, data)
  {
    forall i | 0 <= i < |data| {
      target[at + i] := data[i];
    }
  }
}
