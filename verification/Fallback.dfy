/** The stream that can be marked and rewound (src/core/guard/fallback.rs). */
module Fallback {
  import opened Common
  import Buffer
  import AsyncIo
  import opened FallbackSpec

  class Fallback {
    const target: AsyncIo.Duplex
    const strict: bool
    var backedBuf: Buffer.Buffer?
    var markedBuf: Buffer.Buffer?

    ghost predicate Valid()
      reads this, backedBuf, markedBuf
    {
      && (backedBuf != null ==> backedBuf.Valid())
      && (markedBuf != null ==> markedBuf.Valid())
      && (backedBuf != null ==> backedBuf != markedBuf)
    }

    ghost function Contents(b: Buffer.Buffer?): Option<Bytes>
      reads b
    {
      if b == null then None else Some(b.Contents())
    }

    ghost function View(): View
      reads this, backedBuf, markedBuf, target`rest
    {
      FallbackSpec.View(Contents(backedBuf), Contents(markedBuf), target.rest)
    }

    constructor (target: AsyncIo.Duplex, strict: bool)
      ensures Valid() && View() == FallbackSpec.View(None, None, target.rest)
      ensures this.target == target && this.strict == strict && backedBuf == null && markedBuf == null
    {
      this.target, this.strict, backedBuf, markedBuf := target, strict, null, null;
    }

    /** The buffers in use are the ones of before, or new ones. */
    twostate predicate SameOrFresh()
      reads this
    {
      && (backedBuf == null || backedBuf == old(backedBuf) || backedBuf == old(markedBuf) || fresh(backedBuf))
      && (markedBuf == null || markedBuf == old(markedBuf) || fresh(markedBuf))
    }

    /** Each buffer is the one of before, or gone. */
    twostate predicate Unbuffers()
      reads this
    {
      && (backedBuf == null || backedBuf == old(backedBuf))
      && (markedBuf == null || markedBuf == old(markedBuf))
    }

    method Mark()
      requires Valid()
      modifies this`markedBuf
      ensures Valid() && View() == Marked(old(View())) && SameOrFresh() && markedBuf != null
    {
      if markedBuf == null {
        markedBuf := new Buffer.Buffer();
      }
    }

    method Backward()
      requires Valid()
      modifies this`markedBuf, this`backedBuf, backedBuf, markedBuf
      ensures Valid() && View() == Rewound(old(View())) && SameOrFresh() && markedBuf == null
    {
      if markedBuf != null {
        var marked := markedBuf;
        markedBuf := null;
        if backedBuf != null {
          var bytes := TakeAll(marked);
          backedBuf.PushBack(bytes);
        } else {
          backedBuf := marked;
          assert [] + marked.Contents() == marked.Contents();
        }
      }
    }

    /** `read_to_buffer` into a buffer of exactly the right length. */
    method TakeAll(b: Buffer.Buffer) returns (bytes: Bytes)
      requires b.Valid()
      modifies b
      ensures b.Valid() && b.Contents() == [] && bytes == old(b.Contents())
    {
      var data := new byte[b.len](i => 0);
      ghost var all, base := b.Contents(), data[..];
      var n := b.ReadToBuffer(data, 0, data.Length);
      assert all[..n] == all;
      assert data[..] == data[..][0..0 + |all|];
      bytes := data[..];
    }

    /** Serves a read from the replay buffer, and drops the buffer once it is empty. */
    method Replay(rb: AsyncIo.ReadBuf) returns (n: nat)
      requires Valid() && rb.Valid() && backedBuf != null
      modifies this`backedBuf, backedBuf, rb, rb.data
      ensures Valid() && rb.Valid() && (backedBuf == null || backedBuf == old(backedBuf))
      ensures n <= old(rb.Remaining()) && n <= |old(backedBuf.Contents())| && rb.offset == old(rb.offset) + n
      ensures n == 0 ==> old(rb.Remaining()) == 0 || old(backedBuf.Contents()) == []
      ensures rb.data[..] == Buffer.Spliced(old(rb.data[..]), rb.lo + old(rb.offset), old(backedBuf.Contents())[..n])
      ensures rb.Filled() == old(rb.Filled()) + old(backedBuf.Contents())[..n]
      ensures Contents(backedBuf) ==
                if n < |old(backedBuf.Contents())| then Some(old(backedBuf.Contents())[n..]) else None
    {
      n := rb.TakeFrom(backedBuf);
      if backedBuf.IsEmpty() {
        backedBuf := null;
      }
    }

    /** The read itself: the replay buffer comes before the target. */
    method ReadThrough(rb: AsyncIo.ReadBuf) returns (r: Poll<nat>)
      requires Valid() && rb.Valid()
      modifies this`backedBuf, backedBuf, rb, rb.data, target`rest, target`taken, target`stalls
      ensures target.stalls == old(target.stalls) + if r.Ready? && r.result.Ok? then 0 else 1
      ensures Valid() && rb.Valid() && (backedBuf == null || backedBuf == old(backedBuf))
      ensures Contents(markedBuf) == old(Contents(markedBuf))
      ensures r.Ready? && r.result.Ok? ==>
                var n, v := r.result.value, old(View());
                && n <= old(rb.Remaining()) && rb.offset == old(rb.offset) + n
                && CanRead(v, n) && n <= |Unread(v)|
                && rb.Filled() == old(rb.Filled()) + Unread(v)[..n]
                && View() == AfterRead(v.(marked := None), n, []).(marked := v.marked)
                && rb.data[..] == Buffer.Spliced(old(rb.data[..]), rb.lo + old(rb.offset), Unread(v)[..n])
                && (n == 0 ==> old(rb.Remaining()) == 0 || OrEmpty(v.backed) == [])
                && (n == 0 ==> old(rb.Remaining()) == 0 || v.backed.Some? || v.rest == [])
      ensures !(r.Ready? && r.result.Ok?) ==>
                View() == old(View()) && rb.offset == old(rb.offset) && rb.data[..] == old(rb.data[..])
      ensures r.Ready? && r.result.Err? ==> r.result.error == Io
      ensures old(View()).backed == Some([]) ==> r == Ready(Ok(0))
    {
      hide Buffer.Spliced;
      ghost var v := View();
      if backedBuf == null {
        r := target.PollRead(rb);
        assert Unread(v) == v.rest;
      } else {
        var n := Replay(rb);
        assert v.backed.value[..n] == Unread(v)[..n];
        r := Ready(Ok(n));
      }
    }

    /**
     One poll of a read. While the mark is set, the whole filled part of the caller's buffer is
     remembered, which is what was read exactly if the buffer came empty.
     */
    method PollRead(rb: AsyncIo.ReadBuf) returns (r: Poll<nat>)
      requires Valid() && rb.Valid()
      modifies this`backedBuf, backedBuf, markedBuf, rb, rb.data, target`rest, target`taken, target`stalls
      ensures target.stalls == old(target.stalls) + if r.Ready? && r.result.Ok? then 0 else 1
      ensures Valid() && rb.Valid() && (backedBuf == null || backedBuf == old(backedBuf))
      ensures r.Ready? && r.result.Ok? ==>
                var n := r.result.value;
                && n <= old(rb.Remaining()) && rb.offset == old(rb.offset) + n
                && CanRead(old(View()), n) && n <= |Unread(old(View()))|
                && rb.Filled() == old(rb.Filled()) + Unread(old(View()))[..n]
                && View() == AfterRead(old(View()), n, rb.Filled())
                && (old(rb.offset) == 0 ==> View() == FreshRead(old(View()), n))
                && rb.data[..] == Buffer.Spliced(old(rb.data[..]), rb.lo + old(rb.offset), Unread(old(View()))[..n])
                && (n == 0 ==> old(rb.Remaining()) == 0 || OrEmpty(old(View()).backed) == [])
                && (n == 0 ==> old(rb.Remaining()) == 0 || old(View()).backed.Some? || old(View()).rest == [])
      ensures !(r.Ready? && r.result.Ok?) ==>
                View() == old(View()) && rb.offset == old(rb.offset) && rb.data[..] == old(rb.data[..])
      ensures r.Ready? && r.result.Err? ==> r.result.error == Io
      ensures old(View()).backed == Some([]) ==> r == Ready(Ok(0))
    {
      hide Buffer.Spliced, Unread, CanRead;
      ghost var before := View();
      r := ReadThrough(rb);
      if r.Ready? && r.result.Ok? {
        assert old(rb.offset) == 0 ==> rb.Filled() == Unread(before)[..r.result.value];
        if markedBuf != null {
          markedBuf.PushBack(rb.data[rb.lo..rb.lo + rb.offset]);
        }
      }
    }

    /** Reads into the window `data[lo..hi]` through a fresh `ReadBuf`. */
    method PollReadInto(data: array<byte>, lo: nat, hi: nat) returns (r: Poll<nat>)
      requires Valid() && lo <= hi <= data.Length
      modifies this`backedBuf, backedBuf, markedBuf, data, target`rest, target`taken, target`stalls
      ensures target.stalls == old(target.stalls) + if r.Ready? && r.result.Ok? then 0 else 1
      ensures Valid() && (backedBuf == null || backedBuf == old(backedBuf))
      ensures r.Ready? && r.result.Ok? ==>
                var n := r.result.value;
                && n <= hi - lo && CanRead(old(View()), n) && n <= |Unread(old(View()))|
                && data[..lo + n] == old(data[..lo]) + Unread(old(View()))[..n]
                && View() == FreshRead(old(View()), n)
                && (n == 0 ==> lo == hi || OrEmpty(old(View()).backed) == [])
                && (n == 0 ==> lo == hi || old(View()).backed.Some? || old(View()).rest == [])
      ensures !(r.Ready? && r.result.Ok?) ==> View() == old(View()) && data[..] == old(data[..])
      ensures r.Ready? && r.result.Err? ==> r.result.error == Io
    {
      hide FreshRead, AfterRead, CanRead, Unread, Buffer.Spliced;
      var window := new AsyncIo.ReadBuf(data, lo, hi);
      r := PollRead(window);
      if r.Ready? && r.result.Ok? {
        AsyncIo.WindowPrefix(old(data[..]), data[..], lo, Unread(old(View()))[..r.result.value]);
      }
    }

    /** A read with nothing buffered is a read of the target. */
    method PollPlain(data: array<byte>, lo: nat, hi: nat) returns (r: Poll<nat>)
      requires backedBuf == null && markedBuf == null && lo <= hi <= data.Length
      modifies this`backedBuf, data, target`rest, target`taken, target`stalls
      ensures Valid() && backedBuf == null
      ensures target.stalls == old(target.stalls) + if r.Ready? && r.result.Ok? then 0 else 1
      ensures r.Ready? && r.result.Ok? ==>
                var n := r.result.value;
                && lo + n <= hi && n <= |old(target.rest)|
                && data[..lo + n] == old(data[..lo]) + old(target.rest)[..n]
                && old(target.rest) == old(target.rest)[..n] + target.rest
                && (n == 0 ==> lo == hi || target.rest == [])
      ensures !(r.Ready? && r.result.Ok?) ==> target.rest == old(target.rest) && data[..lo] == old(data[..lo])
      ensures r.Ready? && r.result.Err? ==> r.result.error == Io
    {
      hide FreshRead, AfterRead, CanRead, Unread;
      PlainRead(target.rest, 0);
      r := PollReadInto(data, lo, hi);
      if r.Ready? && r.result.Ok? {
        PlainRead(old(target.rest), r.result.value);
      } else {
        assert data[..lo] == data[..][..lo];
      }
    }

    /** One poll of a write: refused in strict mode while anything is buffered, else it forgets. */
    method PollWrite(data: Bytes) returns (r: Poll<nat>)
      modifies this`backedBuf, this`markedBuf, target`sent, target`stalls
      requires Valid()
      ensures Valid() && SameOrFresh()
      ensures var v := old(View());
              if strict && (v.backed.Some? || v.marked.Some?)
              then r == Ready(Err(FallbackStrict)) && View() == v && target.sent == old(target.sent)
              else View() == Forgotten(v)
                   && target.stalls ==
                      old(target.stalls) + (if r.Ready? && r.result.Ok? && (r.result.value > 0 || data == []) then 0 else 1)
                   && if r.Ready? && r.result.Ok?
                      then r.result.value <= |data| && target.sent == old(target.sent) + data[..r.result.value]
                      else target.sent == old(target.sent) && (r.Ready? ==> r.result.error == Io)
    {
      if strict && (backedBuf != null || markedBuf != null) {
        return Ready(Err(FallbackStrict));
      }
      markedBuf := null;
      backedBuf := null;
      r := target.PollWrite(data);
    }

    method ConsumeBackData()
      modifies this`backedBuf, this`markedBuf
      ensures Valid() && View() == Forgotten(old(View())) && backedBuf == null && markedBuf == null
    {
      markedBuf := null;
      backedBuf := null;
    }

    /** Takes the replay buffer out; an empty one counts as none. */
    method BackData() returns (data: Option<Bytes>)
      requires Valid()
      modifies this`backedBuf, backedBuf
      ensures Valid() && View() == old(View()).(backed := None) && backedBuf == null
      ensures OrEmpty(data) == OrEmpty(old(View()).backed) && (data.Some? ==> data.value != [])
    {
      data := None;
      if backedBuf != null {
        var bytes := TakeAll(backedBuf);
        backedBuf := null;
        if bytes != [] {
          data := Some(bytes);
        }
      }
    }
  }
}
