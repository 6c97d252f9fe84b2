/** Futures that finish a whole transfer (src/async/ext.rs). */
module Ext {
  import opened Common
  import Buffer
  import AsyncIo

  class ReadExact {
    const reader: AsyncIo.Duplex
    const buf: AsyncIo.ReadBuf
    ghost const stream: Bytes        // what the reader had left to deliver at the start

    constructor (reader: AsyncIo.Duplex, buf: AsyncIo.ReadBuf)
      requires buf.Valid() && buf.offset == 0
      ensures Valid() && this.reader == reader && this.buf == buf && stream == reader.rest
    {
      this.reader, this.buf, stream := reader, buf, reader.rest;
    }

    ghost predicate Valid()
      reads reader`rest, buf, buf.data
    {
      buf.Valid() && buf.Filled() + reader.rest == stream
    }

    /** Ready means the first bytes of the stream fill the buffer, or that there are not enough. */
    method Poll() returns (r: Poll<()>)
      requires Valid()
      modifies reader`rest, reader`taken, buf, buf.data, reader`stalls
      ensures Valid()
      ensures r.Pending? ==> buf.Remaining() > 0
      ensures reader.stalls == old(reader.stalls) + if r.Pending? || r == Ready(Err(Io)) then 1 else 0
      ensures r.Ready? && r.result.Ok? ==> buf.Len() <= |stream| && buf.Filled() == stream[..buf.Len()]
      ensures r.Ready? && r.result.Err? ==>
                r.result.error == Io || (r.result.error == UnexpectedEof && |stream| < buf.Len())
    {
      hide Buffer.Spliced;
      while true
        invariant Valid() && reader.stalls == old(reader.stalls)
        decreases buf.Remaining()
      {
        if buf.Remaining() == 0 {
          return Ready(Ok(()));
        }
        ghost var filled, rest := buf.Filled(), reader.rest;
        var p := reader.PollRead(buf);
        match p {
          case Pending => return Pending;
          case Ready(Err(e)) => return Ready(Err(e));
          case Ready(Ok(n)) =>
            if n == 0 {
              return Ready(Err(UnexpectedEof));
            }
            Assoc(filled, rest[..n], reader.rest);
            assert rest == rest[..n] + reader.rest;
        }
      }
    }
  }

  class WriteAll {
    const writer: AsyncIo.Duplex
    const buf: Bytes
    var offset: nat
    ghost const before: Bytes        // what the writer had sent at the start

    constructor (writer: AsyncIo.Duplex, buf: Bytes)
      ensures Valid() && this.writer == writer && this.buf == buf && before == writer.sent
    {
      this.writer, this.buf, offset, before := writer, buf, 0, writer.sent;
    }

    ghost predicate Valid()
      reads this`offset, writer`sent
    {
      (offset < |buf| || buf == []) && offset <= |buf| && writer.sent == before + buf[..offset]
    }

    /** Ready with success means that the whole buffer was sent, once; a refusal of bytes is a reset. */
    method Poll() returns (r: Poll<()>)
      requires Valid()
      modifies this`offset, writer`sent, writer`stalls
      ensures r.Pending? ==> Valid()
      ensures old(writer.sent) <= writer.sent
      ensures r.Ready? && r.result.Ok? ==> writer.sent == before + buf
      ensures buf == [] ==> r == Ready(Ok(()))
      ensures writer.stalls == old(writer.stalls) + if r.Ready? && r.result.Ok? then 0 else 1
      ensures r.Ready? && r.result.Err? ==> r.result.error == Io || r.result.error == ConnectionReset
    {
      while true
        invariant Valid() && old(writer.sent) <= writer.sent && writer.stalls == old(writer.stalls)
        decreases |buf| - offset
      {
        if buf == [] {
          return Ready(Ok(()));
        }
        var w := writer.PollWrite(buf[offset..]);
        match w {
          case Pending => return Pending;
          case Ready(Err(e)) => return Ready(Err(e));
          case Ready(Ok(n)) =>
            if n == 0 {
              return Ready(Err(ConnectionReset));
            }
            assert buf[..offset + n] == buf[..offset] + buf[offset..][..n];
            Assoc(before, buf[..offset], buf[offset..][..n]);
            offset := offset + n;
        }
        if offset == |buf| {
          assert buf[..offset] == buf;
          return Ready(Ok(()));
        }
      }
    }
  }
}
