/** Destinations of reads, and the transport at the bottom (src/async/mod.rs). */
module AsyncIo {
  import opened Common
  import Buffer

  /** A window `data[lo..hi]` that reads fill from the front; `offset` bytes of it are filled. */
  class ReadBuf {
    const data: array<byte>
    const lo: nat
    const hi: nat
    var offset: nat

    ghost predicate Valid()
      reads this
    {
      lo <= hi <= data.Length && offset <= hi - lo
    }

    ghost function Filled(): Bytes
      requires Valid()
      reads this, data
    {
      data[lo..lo + offset]
    }

    constructor (data: array<byte>, lo: nat, hi: nat)
      requires lo <= hi <= data.Length
      ensures Valid() && this.data == data && this.lo == lo && this.hi == hi && offset == 0
    {
      this.data, this.lo, this.hi, this.offset := data, lo, hi, 0;
    }

    function Len(): nat
      requires Valid()
      reads this
    {
      hi - lo
    }

    function Remaining(): nat
      requires Valid()
      reads this
    {
      Len() - offset
    }

    /** Copies to `initialize_unfilled()` and then calls `advance`. */
    method Put(bytes: Bytes)
      requires Valid() && |bytes| <= Remaining()
      modifies this, data
      ensures Valid() && offset == old(offset) + |bytes|
      ensures data[..] == Buffer.Spliced(old(data[..]), old(lo + offset), bytes)
      ensures Filled() == old(Filled()) + bytes
    {
      Buffer.CopyInto(bytes, data, lo + offset);
      offset := offset + |bytes|;
      FilledBySplice(old(data[..]), lo, old(offset), bytes);
    }

    /** How a carry-over buffer serves a read. */
    method TakeFrom(from: Buffer.Buffer) returns (n: nat)
      requires Valid() && from.Valid()
      modifies this, data, from
      ensures Valid() && from.Valid() && offset == old(offset) + n
      ensures n == if old(|from.Contents()|) < old(Remaining()) then old(|from.Contents()|) else old(Remaining())
      ensures data[..] == Buffer.Spliced(old(data[..]), old(lo + offset), old(from.Contents())[..n])
      ensures Filled() == old(Filled()) + old(from.Contents())[..n]
      ensures from.Contents() == old(from.Contents())[n..]
    {
      n := from.ReadToBuffer(data, lo + offset, hi);
      offset := offset + n;
      FilledBySplice(old(data[..]), lo, old(offset), old(from.Contents())[..n]);
    }

    /** These bytes and no others were handed out through the buffer. */
    twostate predicate Gained(new more: Bytes)
      requires old(Valid())
      reads this, data
    {
      && Valid() && offset == old(offset) + |more|
      && Filled() == old(Filled()) + more
      && data[..] == Buffer.Spliced(old(data[..]), lo + old(offset), more)
    }

    /** Nothing was handed out. */
    twostate predicate Untouched()
      reads this, data
    {
      offset == old(offset) && data[..] == old(data[..])
    }

    twostate lemma GainedNothing()
      requires old(Valid()) && Untouched()
      ensures Gained([])
    {
      assert old(Filled()) == old(data[..])[lo..lo + old(offset)];
      assert Filled() == data[..][lo..lo + offset];
    }
  }

  lemma WindowPrefix(base: Bytes, after: Bytes, lo: nat, bytes: Bytes)
    requires lo + |bytes| <= |base| && after == Buffer.Spliced(base, lo, bytes)
    ensures after[..lo + |bytes|] == base[..lo] + bytes
  {
    assert after[..lo + |bytes|] == after[..lo] + after[lo..lo + |bytes|];
  }

  lemma FilledBySplice(base: Bytes, lo: nat, offset: nat, bytes: Bytes)
    requires lo + offset + |bytes| <= |base|
    ensures Buffer.Spliced(base, lo + offset, bytes)[lo..lo + offset + |bytes|] == base[lo..lo + offset] + bytes
  {
    var s := Buffer.Spliced(base, lo + offset, bytes);
    assert s[lo..lo + offset] == s[..lo + offset][lo..];
    assert base[lo..lo + offset] == base[..lo + offset][lo..];
    assert s[lo..lo + offset + |bytes|] == s[lo..lo + offset] + s[lo + offset..lo + offset + |bytes|];
  }

  /**
   A full-duplex byte stream: what the peer will still deliver (`rest`), what was delivered
   (`taken`), what was sent. Reads and writes are the environment's choice at every poll.
   */
  class Duplex {
    var rest: Bytes
    var taken: Bytes
    var sent: Bytes
    ghost var stalls: nat            // polls that moved nothing: not yet, a failure, or a refused write

    constructor (rest: Bytes)
      ensures this.rest == rest && taken == [] && sent == []
    {
      this.rest, taken, sent, stalls := rest, [], [], 0;
    }

    /** Some of `n` bytes, and none only if there are none. */
    method Part(n: nat) returns (k: nat)
      ensures k <= n && (k == 0 ==> n == 0)
    {
      k := n;
      if n > 1 {
        k :| 1 <= k <= n;
      }
    }

    /** The next `n` bytes go to the buffer. */
    method Move(buf: ReadBuf, n: nat)
      requires buf.Valid() && n <= |rest| && n <= buf.Remaining()
      modifies this`rest, this`taken, buf, buf.data
      ensures buf.Valid() && buf.offset == old(buf.offset) + n
      ensures buf.data[..] == Buffer.Spliced(old(buf.data[..]), buf.lo + old(buf.offset), old(rest)[..n])
      ensures buf.Filled() == old(buf.Filled()) + old(rest)[..n]
      ensures taken == old(taken) + old(rest)[..n] && rest == old(rest)[n..]
      ensures taken + rest == old(taken + rest)
    {
      buf.Put(rest[..n]);
      taken, rest := taken + rest[..n], rest[n..];
    }

    /**
     Any number of bytes up to what fits and what is there; not yet; or a failure. A count of
     zero means that the window is empty or that the peer has closed the stream.
     */
    method PollRead(buf: ReadBuf) returns (r: Poll<nat>)
      requires buf.Valid()
      modifies this`rest, this`taken, buf, buf.data, this`stalls
      ensures buf.Valid()
      ensures r.Ready? && r.result.Ok? ==>
                var n := r.result.value;
                && n <= |old(rest)| && n <= old(buf.Remaining())
                && (n == 0 ==> old(buf.Remaining()) == 0 || old(rest) == [])
                && buf.offset == old(buf.offset) + n
                && buf.data[..] == Buffer.Spliced(old(buf.data[..]), buf.lo + old(buf.offset), old(rest)[..n])
                && buf.Filled() == old(buf.Filled()) + old(rest)[..n]
                && taken == old(taken) + old(rest)[..n]
                && rest == old(rest)[n..]
      ensures !(r.Ready? && r.result.Ok?) ==>
                && taken == old(taken) && rest == old(rest)
                && buf.offset == old(buf.offset) && buf.data[..] == old(buf.data[..])
      ensures r.Ready? && r.result.Err? ==> r.result.error == Io
      ensures taken + rest == old(taken + rest)
      ensures stalls == old(stalls) + if r.Ready? && r.result.Ok? then 0 else 1
    {
      stalls := stalls + 1;
      if * {
        r := Pending;
      } else if * {
        r := Ready(Err(Io));
      } else {
        stalls := stalls - 1;
        var n := Part(if |rest| < buf.Remaining() then |rest| else buf.Remaining());
        Move(buf, n);
        r := Ready(Ok(n));
      }
    }

    /** Reads into the window `data[lo..hi]` through a fresh `ReadBuf`. */
    method PollReadInto(data: array<byte>, lo: nat, hi: nat) returns (r: Poll<nat>)
      requires lo <= hi <= data.Length
      modifies this`rest, this`taken, data, this`stalls
      ensures r.Ready? && r.result.Ok? ==>
                var n := r.result.value;
                && n <= hi - lo && n <= |old(rest)| && (n == 0 ==> lo == hi || old(rest) == [])
                && data[..lo + n] == old(data[..lo]) + old(rest)[..n]
                && taken == old(taken) + old(rest)[..n]
                && rest == old(rest)[n..]
      ensures !(r.Ready? && r.result.Ok?) ==>
                taken == old(taken) && rest == old(rest) && data[..] == old(data[..])
      ensures taken + rest == old(taken + rest)
      ensures stalls == old(stalls) + if r.Ready? && r.result.Ok? then 0 else 1
      ensures r.Ready? && r.result.Err? ==> r.result.error == Io
    {
      var window := new ReadBuf(data, lo, hi);
      r := PollRead(window);
      if r.Ready? && r.result.Ok? {
        var n := r.result.value;
        WindowPrefix(old(data[..]), data[..], lo, old(rest)[..n]);
      }
    }

    /** Some of the bytes, at least one unless the stream is closed; not yet; or a failure. */
    method PollWrite(data: Bytes) returns (r: Poll<nat>)
      modifies this`sent, this`stalls
      ensures r.Ready? && r.result.Ok? ==>
                r.result.value <= |data| && sent == old(sent) + data[..r.result.value]
      ensures !(r.Ready? && r.result.Ok?) ==> sent == old(sent)
      ensures r.Ready? && r.result.Err? ==> r.result.error == Io
      ensures stalls == old(stalls) + if r.Ready? && r.result.Ok? && (r.result.value > 0 || data == []) then 0 else 1
    {
      stalls := stalls + 1;
      if * {
        r := Pending;
      } else if * {
        r := Ready(Err(Io));
      } else {
        var n: nat :| n <= |data|;
        if n > 0 || data == [] {
          stalls := stalls - 1;
        }
        sent := sent + data[..n];
        r := Ready(Ok(n));
      }
    }

    /** The same for a transport that, when it is ready, takes at least one of the bytes offered. */
    method PollWriteSome(data: Bytes) returns (r: Poll<nat>)
      modifies this`sent, this`stalls
      ensures r.Ready? && r.result.Ok? ==>
                && r.result.value <= |data| && sent == old(sent) + data[..r.result.value]
                && (data != [] ==> r.result.value > 0)
      ensures !(r.Ready? && r.result.Ok?) ==> sent == old(sent)
      ensures r.Ready? && r.result.Err? ==> r.result.error == Io
      ensures stalls == old(stalls) + if r.Ready? && r.result.Ok? then 0 else 1
    {
      r := PollWrite(data);
      if r == Ready(Ok(0)) && data != [] {
        stalls := stalls - 1;
        sent := sent + data[..1];
        r := Ready(Ok(1));
      }
    }
  }
}
