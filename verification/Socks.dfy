/** The server side of the SOCKS5 handshake (src/net/socks/mod.rs). */
module Socks {
  import opened Common
  import opened FallbackSpec
  import Fallback
  import opened Auth
  import opened SocksAddr
  import opened SocksRequest

  datatype State =
    | Handshake
    | Authentication(methods: nat)
    | Request(cmd: byte, rsv: byte, atype: byte, need: nat)
    | Success(socket: Socket)

  const FIRST_REQUEST: State := Request(0, 0, 0, 4)

  function Reply(rsv: byte): Bytes {
    [5, 0, rsv, 1, 0, 0, 0, 0, 0, 0]
  }

  class Socks5 {
    const stream: Fallback.Fallback
    const auth: S5Authenticate
    var state: State
    var readBuf: array<byte>
    var readOffset: nat
    var writeBuf: Bytes

    // History
    ghost const start: View          // the stream when the handshake began
    ghost var sizes: seq<nat>        // sizes of the reads of the greeting
    ghost var head: Bytes            // the greeting: version, methods
    ghost var behind: Bytes          // what the target still had to deliver after the greeting
    ghost var req: Bytes             // the request
    ghost var resent: bool           // the reply was once taken only in part
    ghost var pieces: nat            // reads that delivered bytes of the current segment
    ghost var cuts: nat              // segments that took more than one read
    ghost var denied: bool           // a read that was offered no room was answered with zero

    constructor (stream: Fallback.Fallback, credentials: Option<(Bytes, Bytes)>)
      requires stream.Valid() && !stream.strict
      ensures Valid() && this.stream == stream && state == Handshake && start == stream.View()
      ensures credentials.Some? ==> auth.username == credentials.value.0 && auth.password == credentials.value.1
      ensures auth.standard == credentials.Some? && auth.before == stream.target.sent && InGreeting() && Untouched()
      ensures Tallied() && pieces == 0 && cuts == 0 && !resent && !denied
      ensures fresh(auth) && fresh(readBuf) && auth.rbuf == null
    {
      this.stream := stream;
      auth := new S5Authenticate(stream, credentials);
      state := Handshake;
      readBuf := new byte[0];
      readOffset, writeBuf := 0, [];
      start := stream.View();
      sizes, head, behind, req, resent, pieces, cuts := [], [], [], [], false, 0, 0;
      denied := false;
    }

    /** Nothing but reads of the greeting happened to the stream. */
    ghost predicate Untouched()
      reads this`sizes, this`head, stream, stream.backedBuf, stream.markedBuf, stream.target`rest, stream.target`sent
      reads auth
    {
      && CanReadAll(start, sizes) && stream.View() == AfterReads(start, sizes)
      && stream.target.sent == auth.before && auth.Idle()
      && |head| == Sum(sizes) <= |Unread(start)| && head == Unread(start)[..|head|]
    }

    ghost predicate HeadWhole()
      reads this`head
    {
      |head| >= 2 && head[0] == 5 && |head| == 2 + head[1] as int
    }

    /** `behind` is what follows the greeting, unless a replay buffer was longer than that. */
    ghost predicate BehindHead()
      reads this`head, this`behind
    {
      |OrEmpty(start.backed)| <= |head| ==> Unread(start) == head + behind
    }

    /** The greeting is being received. */
    ghost predicate InGreeting()
      reads this`state, this`writeBuf, this`req, this`resent, this`head, this`readOffset, this`readBuf, readBuf
    {
      && writeBuf == [] && req == [] && !resent && readOffset <= readBuf.Length
      && match state {
           case Handshake => (readBuf.Length == 0 || readBuf.Length == 2) && head == readBuf[..readOffset]
           case Authentication(n) => n == readBuf.Length < 256 && head == [5, n] + readBuf[..readOffset]
           case _ => false
         }
    }

    /** The greeting is complete and authentication has begun. */
    ghost predicate InAuthentication()
      reads this`head, this`behind, auth`got, stream.target`rest
    {
      HeadWhole() && BehindHead() && auth.got + stream.target.rest == behind
    }

    /** Authentication is over and passed. */
    ghost predicate Authenticated()
      reads this`head, this`behind, this`req, auth, stream`backedBuf, stream`markedBuf, stream.target`rest
    {
      && auth.stream == stream && auth.Passed() && auth.Quiet() && HeadWhole() && BehindHead()
      && auth.got + req + stream.target.rest == behind
    }

    ghost predicate InRequest()
      reads this`state, this`readBuf, this`readOffset, this`writeBuf, this`head, this`sizes, this`behind, this`req, this`resent
      reads readBuf, auth, stream`backedBuf, stream`markedBuf, stream.target`rest, stream.target`sent
    {
      && state.Request? && writeBuf == []
      && Authenticated() && auth.OnlySaid() && !resent
      && state.need == readBuf.Length && readOffset <= readBuf.Length
      && readOffset <= |req|
      && var prefix, part := req[..|req| - readOffset], req[|req| - readOffset..];
      && part == readBuf[..readOffset]
      && Expects(prefix)
    }

    /** How the current segment continues the part of the request in front of it. */
    ghost predicate Expects(prefix: Bytes)
      requires state.Request?
      reads this`state
    {
      if state == FIRST_REQUEST then prefix == [] else
      && |prefix| >= 4 && prefix[2] == state.rsv
      && if state.atype == 3 && state.need == 1 then ExpectsLength(prefix, state.cmd)
         else ExpectsAddress(prefix, state.cmd, state.atype, state.need)
    }

    ghost predicate InSuccess()
      reads this`state, this`readBuf, this`readOffset, this`writeBuf, this`head, this`sizes, this`behind, this`req, this`resent
      reads readBuf, auth, stream`backedBuf, stream`markedBuf, stream.target`rest, stream.target`sent
    {
      && state.Success? && Authenticated() && readBuf.Length == 0 && readOffset == 0
      && ScanRequest(req) == Parsed(Ok(state.socket), |req|)
      && |req| >= 4 && (writeBuf == [] || (writeBuf == [5, 0, req[2], 1, 0, 0, 0, 0, 0, 0] && state.socket.Tcp?))
      && Answered()
    }

    /**
     What was sent: the reply follows what authentication said, once and whole, exactly if the
     stream never took only a part of it; otherwise parts of it come first.
     */
    ghost predicate Answered()
      requires state.Success? && |req| >= 4 && auth.stream == stream
      reads this`state, this`readBuf, this`readOffset, this`writeBuf, this`head, this`sizes, this`behind, this`req, this`resent
      reads auth, stream.target`sent
    {
      var said, sent := auth.before + auth.said, stream.target.sent;
      if state.socket.Udp? then sent == said && !resent
      else if writeBuf != [] then if resent then |sent| > |said| else sent == said
      else if resent then |sent| > |said| + 10 && sent[|sent| - 10..] == [5, 0, req[2], 1, 0, 0, 0, 0, 0, 0]
      else sent == said + [5, 0, req[2], 1, 0, 0, 0, 0, 0, 0]
    }

    ghost predicate Streams()
      reads this`readBuf, auth`rbuf, stream, stream.backedBuf, stream.markedBuf
    {
      stream.Valid() && !stream.strict && auth.stream == stream && readBuf != auth.rbuf
    }

    /** A segment is being received. */
    ghost predicate Receiving()
      reads this`state, this`readBuf, this`readOffset, this`writeBuf, this`head, this`sizes, this`behind, this`req, this`resent
      reads readBuf, stream, stream.backedBuf, stream.markedBuf, stream.target`rest, stream.target`sent, auth
    {
      Streams() && readOffset <= readBuf.Length && ((InGreeting() && Untouched()) || InRequest())
    }

    ghost predicate Valid()
      reads this`state, this`readBuf, this`readOffset, this`writeBuf, this`head, this`sizes, this`behind, this`req, this`resent
      reads readBuf, auth, auth.rbuf
      reads stream, stream.backedBuf, stream.markedBuf, stream.target`rest, stream.target`sent
    {
      && Streams()
      && (Receiving() || InSuccess()
          || (InGreeting() && state.Authentication? && readOffset == readBuf.Length && InAuthentication() && auth.Valid()))
    }

    /** The counts fit: a segment has bytes exactly if a read delivered some. */
    ghost predicate Tallied()
      reads this`pieces, this`readOffset, this`cuts
    {
      (pieces == 0 <==> readOffset == 0) && pieces <= readOffset && (pieces >= 2 ==> cuts > 0)
    }

    /** The current segment is there only in part. */
    ghost predicate Midway()
      reads this`readOffset, this`readBuf
    {
      0 < readOffset < readBuf.Length
    }

    ghost function Unseen(): nat
      reads stream, stream.backedBuf, stream.markedBuf, stream.target`rest
    {
      |Unread(stream.View())|
    }

    /** How a read that does not deliver a byte ends the poll. */
    ghost predicate Stopped(stop: Poll<Socket>, atEnd: bool) {
      match stop
      case Pending => true
      case Ready(Ok(_)) => false
      case Ready(Err(e)) => e == Io || (e == ConnectionReset && atEnd)
    }

    /** A read into what is left of the current segment. */
    method PollSegment() returns (r: Poll<nat>)
      requires Streams() && readOffset <= readBuf.Length
      modifies this`denied, readBuf
      modifies stream`backedBuf, stream.backedBuf, stream.markedBuf, stream.target`rest, stream.target`taken
      modifies stream.target`stalls
      ensures denied <==> old(denied) || (r == Ready(Ok(0)) && readOffset == readBuf.Length)
      ensures stream.target.stalls == old(stream.target.stalls) + if r.Ready? && r.result.Ok? then 0 else 1
      ensures Streams() && (stream.backedBuf == null || stream.backedBuf == old(stream.backedBuf))
      ensures r.Ready? && r.result.Ok? ==>
                var n, v := r.result.value, old(stream.View());
                && readOffset + n <= readBuf.Length && CanRead(v, n) && n <= |Unread(v)|
                && readBuf[..readOffset + n] == old(readBuf[..readOffset]) + Unread(v)[..n]
                && stream.View() == FreshRead(v, n)
                && (n == 0 ==> readOffset == readBuf.Length || OrEmpty(v.backed) == [])
                && (n == 0 ==> readOffset == readBuf.Length || v.backed.Some? || v.rest == [])
      ensures !(r.Ready? && r.result.Ok?) ==>
                stream.View() == old(stream.View()) && readBuf[..readOffset] == old(readBuf[..readOffset])
      ensures r.Ready? && r.result.Err? ==> r.result.error == Io
    {
      hide FreshRead, CanRead, Unread, AfterRead;
      r := stream.PollReadInto(readBuf, readOffset, readBuf.Length);
      denied := denied || (r == Ready(Ok(0)) && readOffset == readBuf.Length);
      assert !(r.Ready? && r.result.Ok?) ==> readBuf[..readOffset] == readBuf[..][..readOffset];
    }

    /** A read of greeting bytes has come back, before they are counted. */
    ghost predicate GreetingRead(n: nat, v: View, part: Bytes)
      reads this`state, this`readBuf, this`readOffset, this`writeBuf, this`head, this`sizes, this`req, this`resent, readBuf
      reads stream, stream.backedBuf, stream.markedBuf, stream.target`rest, stream.target`sent, auth
    {
      && readOffset + n <= readBuf.Length && CanRead(v, n) && n <= |Unread(v)|
      && readBuf[..readOffset + n] == part + Unread(v)[..n] && |part| == readOffset
      && stream.View() == FreshRead(v, n) && stream.target.sent == auth.before && auth.Idle()
      && CanReadAll(start, sizes) && v == AfterReads(start, sizes)
      && |head| == Sum(sizes) <= |Unread(start)| && head == Unread(start)[..|head|]
      && writeBuf == [] && req == [] && !resent
      && match state {
           case Handshake => (readBuf.Length == 0 || readBuf.Length == 2) && head == part
           case Authentication(k) => k == readBuf.Length < 256 && head == [5, k] + part
           case _ => false
         }
    }

    /** Counts them. */
    method TakeGreeting(n: nat, ghost v: View, ghost part: Bytes)
      requires GreetingRead(n, v, part)
      modifies this`readOffset, this`head, this`sizes
      ensures InGreeting() && Untouched() && readOffset == old(readOffset) + n && |Unread(stream.View())| == |Unread(v)| - n
    {
      hide AfterReads, CanReadAll, FreshRead, CanRead, Sum, Unread, AfterRead, S5Authenticate.Idle;
      ghost var more := Unread(v)[..n];
      FreshReadTakes(v, n);
      NextRead(start, sizes, n);
      if state.Authentication? {
        Assoc([5, readBuf.Length], part, more);
      }
      readOffset := readOffset + n;
      head, sizes := head + more, sizes + [n];
    }

    /** A read of greeting bytes comes back, or the poll ends. */
    method PollGreeting() returns (r: Poll<nat>)
      requires Streams() && InGreeting() && Untouched()
      modifies this`denied, readBuf
      modifies stream`backedBuf, stream.backedBuf, stream.markedBuf, stream.target`rest, stream.target`taken
      modifies stream.target`stalls
      ensures denied <==> old(denied) || (r == Ready(Ok(0)) && readOffset == readBuf.Length)
      ensures stream.target.stalls == old(stream.target.stalls) + if r.Ready? && r.result.Ok? then 0 else 1
      ensures Streams() && (stream.backedBuf == null || stream.backedBuf == old(stream.backedBuf))
      ensures r.Ready? && r.result.Ok? ==>
                GreetingRead(r.result.value, old(stream.View()), old(readBuf[..readOffset]))
      ensures r == Ready(Ok(0)) ==> readOffset == readBuf.Length || Starved()
      ensures !(r.Ready? && r.result.Ok?) ==> InGreeting() && Untouched()
      ensures r.Ready? && r.result.Err? ==> r.result.error == Io
    {
      hide AfterReads, CanReadAll, FreshRead, CanRead, Sum, Unread, AfterRead, Starved, S5Authenticate.Idle;
      ghost var v := stream.View();
      r := PollSegment();
      if r == Ready(Ok(0)) && readOffset < readBuf.Length {
        GreetingStarves(v);
      }
    }

    /** One read into the greeting. */
    method ReadGreeting() returns (stop: Option<Poll<Socket>>)
      requires Streams() && InGreeting() && Untouched()
      modifies this`readOffset, this`head, this`sizes, this`denied, readBuf
      modifies stream`backedBuf, stream.backedBuf, stream.markedBuf, stream.target`rest, stream.target`taken
      modifies stream.target`stalls
      ensures stream.target.stalls >= old(stream.target.stalls)
      ensures stop == Some(Pending) || stop == Some(Ready(Err(Io))) ==> stream.target.stalls > old(stream.target.stalls)
      ensures stream.backedBuf == null || stream.backedBuf == old(stream.backedBuf)
      ensures stop.None? ==>
                Streams() && InGreeting() && Untouched() && old(readOffset) < readOffset && Unseen() < old(Unseen())
      ensures stop.Some? ==>
                readOffset == old(readOffset) && Stopped(stop.value, old(readOffset == readBuf.Length) || Starved())
      ensures denied <==> old(denied) || (stop == Some(Ready(Err(ConnectionReset))) && readOffset == readBuf.Length)
      ensures stop == Some(Pending) ==> Streams() && InGreeting() && Untouched()
    {
      hide GreetingRead, Untouched, InGreeting, Streams, Starved, Unread;
      GreetingFits();
      ghost var v, part := stream.View(), readBuf[..readOffset];
      var r := PollGreeting();
      match r {
        case Pending => return Some(Pending);
        case Ready(Err(e)) => return Some(Ready(Err(e)));
        case Ready(Ok(n)) =>
          if n == 0 {
            return Some(Ready(Err(ConnectionReset)));
          }
          TakeGreeting(n, v, part);
          return None;
      }
    }

    lemma GreetingFits()
      requires InGreeting()
      ensures readOffset <= readBuf.Length
    {
    }

    lemma GreetingStarves(v: View)
      requires InGreeting() && readOffset < readBuf.Length
      requires CanReadAll(start, sizes) && v == AfterReads(start, sizes) && OrEmpty(v.backed) == []
      requires v.backed.Some? || v.rest == []
      requires |head| == Sum(sizes) <= |Unread(start)| && head == Unread(start)[..|head|]
      ensures Starved()
    {
      if v.backed.Some? {
        ReplayNeverEmpty(start, sizes);
      } else {
        ReadsTake(start, sizes);
        assert |Unread(v)| == 0;
      }
    }

    lemma InRequestIsQuiet()
      requires Streams() && InRequest()
      ensures auth.Quiet() && readOffset <= readBuf.Length && state.Request?
      ensures Unseen() == |stream.target.rest|
    {
      PlainRead(stream.target.rest, 0);
    }

    twostate lemma Continued(more: Bytes)
      requires old(InRequest()) && readBuf == old(readBuf) && auth.Quiet() && unchanged(auth)
      requires state == old(state) && writeBuf == old(writeBuf) && head == old(head) && behind == old(behind) && resent == old(resent)
      requires readOffset == old(readOffset) + |more| <= readBuf.Length
      requires readBuf[..readOffset] == old(readBuf[..readOffset]) + more && req == old(req) + more
      requires stream.target.sent == old(stream.target.sent) && old(stream.target.rest) == more + stream.target.rest
      ensures InRequest()
    {
      hide Expects, S5Authenticate.Passed, BehindHead, HeadWhole;
      var k := old(|req| - readOffset);
      assert req[..k] == old(req)[..k];
      assert req[k..] == old(req)[k..] + more;
      assert auth.got + req + stream.target.rest == auth.got + old(req) + old(stream.target.rest);
    }

    /** A read of a stream that keeps nothing for a replay. */
    method PollPlain() returns (r: Poll<nat>)
      requires Streams() && auth.Quiet() && readOffset <= readBuf.Length
      modifies this`denied, readBuf
      modifies stream`backedBuf, stream.backedBuf, stream.markedBuf, stream.target`rest, stream.target`taken
      modifies stream.target`stalls
      ensures denied <==> old(denied) || (r == Ready(Ok(0)) && readOffset == readBuf.Length)
      ensures stream.target.stalls == old(stream.target.stalls) + if r.Ready? && r.result.Ok? then 0 else 1
      ensures Streams() && auth.Quiet() && Unseen() == |stream.target.rest| && stream.backedBuf == null
      ensures r.Ready? && r.result.Ok? ==>
                var n := r.result.value;
                && n <= |old(stream.target.rest)| && readOffset + n <= readBuf.Length
                && readBuf[..readOffset + n] == old(readBuf[..readOffset]) + old(stream.target.rest)[..n]
                && old(stream.target.rest) == old(stream.target.rest)[..n] + stream.target.rest
                && (n == 0 ==> readOffset == readBuf.Length || stream.target.rest == [])
      ensures !(r.Ready? && r.result.Ok?) ==>
                stream.target.rest == old(stream.target.rest) && readBuf[..readOffset] == old(readBuf[..readOffset])
      ensures r.Ready? && r.result.Err? ==> r.result.error == Io
    {
      r := stream.PollPlain(readBuf, readOffset, readBuf.Length);
      denied := denied || (r == Ready(Ok(0)) && readOffset == readBuf.Length);
      PlainRead(stream.target.rest, 0);
    }

    /** One read into the request. */
    method ReadRequest() returns (stop: Option<Poll<Socket>>)
      requires Streams() && InRequest()
      modifies this`readOffset, this`req, this`denied, readBuf
      modifies stream`backedBuf, stream.backedBuf, stream.markedBuf, stream.target`rest, stream.target`taken
      modifies stream.target`stalls
      ensures stream.target.stalls >= old(stream.target.stalls)
      ensures stop == Some(Pending) || stop == Some(Ready(Err(Io))) ==> stream.target.stalls > old(stream.target.stalls)
      ensures stream.backedBuf == null || stream.backedBuf == old(stream.backedBuf)
      ensures stop.None? ==> Streams() && InRequest() && old(readOffset) < readOffset && Unseen() < old(Unseen())
      ensures stop.Some? ==>
                readOffset == old(readOffset) && Stopped(stop.value, old(readOffset == readBuf.Length) || Starved())
      ensures denied <==> old(denied) || (stop == Some(Ready(Err(ConnectionReset))) && readOffset == readBuf.Length)
      ensures stop == Some(Pending) ==> Streams() && InRequest()
    {
      hide FreshRead, CanRead, Unread, AfterRead, InRequest, Unseen, Streams;
      InRequestIsQuiet();
      ghost var rest, part := stream.target.rest, readBuf[..readOffset];
      PlainRead(rest, 0);
      var r := PollPlain();
      match r {
        case Pending =>
          assert readBuf[..readOffset] == part;
          Continued([]);
          return Some(Pending);
        case Ready(Err(e)) => return Some(Ready(Err(e)));
        case Ready(Ok(n)) =>
          if n == 0 {
            assert readBuf[..readOffset] == part;
            Continued([]);
            return Some(Ready(Err(ConnectionReset)));
          }
          readOffset := readOffset + n;
          req := req + rest[..n];
          Continued(rest[..n]);
          return None;
      }
    }

    /**
     The stream ended within a segment: all of it was taken. A stream that began with an empty replay
     buffer looks as if it ended at once.
     */
    ghost predicate Starved()
      reads this`state, this`readBuf, this`readOffset, this`writeBuf, this`head, this`sizes, this`behind, this`req, this`resent
      reads readBuf, auth, stream`backedBuf, stream`markedBuf, stream.target`rest, stream.target`sent
    {
      && readOffset < readBuf.Length
      && ((InGreeting() && (head == Unread(start) || (start.backed == Some([]) && head == [])))
          || (InRequest() && stream.target.rest == []))
    }

    lemma StageOfReceiving()
      requires Receiving()
      ensures if state.Request? then InRequest() else InGreeting() && Untouched()
    {
    }

    lemma ReceivesAgain()
      requires Streams() && (InRequest() || (InGreeting() && Untouched()))
      ensures Receiving()
    {
    }

    method ReadSome() returns (stop: Option<Poll<Socket>>)
      requires Receiving()
      modifies this`readOffset, this`head, this`sizes, this`req, this`pieces, this`cuts, this`denied, readBuf
      modifies stream`backedBuf, stream.backedBuf, stream.markedBuf, stream.target`rest, stream.target`taken
      modifies stream.target`stalls
      ensures stream.target.stalls >= old(stream.target.stalls)
      ensures stop == Some(Pending) || stop == Some(Ready(Err(Io))) ==> stream.target.stalls > old(stream.target.stalls)
      ensures stream.backedBuf == null || stream.backedBuf == old(stream.backedBuf)
      ensures stop.None? ==> Receiving() && old(readOffset) < readOffset && Unseen() < old(Unseen())
      ensures pieces == old(pieces) + if stop.None? then 1 else 0
      ensures cuts == old(cuts) + if stop.None? && old(pieces) == 1 then 1 else 0
      ensures stop.Some? ==>
                readOffset == old(readOffset) && Stopped(stop.value, old(readOffset == readBuf.Length) || Starved())
      ensures denied <==> old(denied) || (stop == Some(Ready(Err(ConnectionReset))) && readOffset == readBuf.Length)
      ensures stop == Some(Pending) ==> Receiving()
    {
      hide InRequest, InGreeting, Untouched, Unseen, Starved, Streams;
      StageOfReceiving();
      if state.Request? {
        stop := ReadRequest();
      } else {
        stop := ReadGreeting();
      }
      if stop.None? || stop.value.Pending? {
        ReceivesAgain();
      }
      if stop.None? {
        cuts := cuts + if pieces == 1 then 1 else 0;
        pieces := pieces + 1;
      }
    }

    /**
     The reads at the end of a turn. The comparison with the length of the window that was left, not
     with that of the segment, lets a segment pass only if one read filled it. One that came in
     pieces leaves the loop early and goes on with the same segment, or is filled and read into once
     more, without room: if that read is answered with zero the handshake is reset, and if it has to
     wait the poll ends, and the next one finds the segment complete.
     */
    method ReadPhase() returns (stop: Option<Poll<Socket>>)
      requires Receiving() && readOffset < readBuf.Length && Tallied() && !denied
      modifies this`readOffset, this`head, this`sizes, this`req, this`pieces, this`cuts, this`denied, readBuf
      modifies stream`backedBuf, stream.backedBuf, stream.markedBuf, stream.target`rest, stream.target`taken
      modifies stream.target`stalls
      ensures old(readOffset) <= readOffset
      ensures stream.target.stalls >= old(stream.target.stalls)
      ensures stop == Some(Pending) || stop == Some(Ready(Err(Io))) ==> stream.target.stalls > old(stream.target.stalls)
      ensures stream.backedBuf == null || stream.backedBuf == old(stream.backedBuf)
      ensures Tallied() && old(pieces) <= pieces
      ensures cuts == old(cuts) + if old(pieces) <= 1 && pieces >= 2 then 1 else 0
      ensures stop.None? ==>
                && Receiving() && Unseen() < old(Unseen())
                && (if readOffset == readBuf.Length then old(pieces) == 0 && pieces == 1 else Midway() && pieces >= 2)
      ensures stop.Some? ==>
                match stop.value
                case Pending => Receiving()
                case Ready(Ok(_)) => false
                case Ready(Err(e)) => e == Io || (e == ConnectionReset && (denied || Starved()))
      ensures Denial(stop)
    {
      hide InRequest, InGreeting, Untouched, Unread, Receiving, Starved;
      ReceivingFits();
      while true
        invariant Receiving() && readOffset <= readBuf.Length && readBuf == old(readBuf)
        invariant stream.backedBuf == null || stream.backedBuf == old(stream.backedBuf)
        invariant if readOffset == old(readOffset) then Unseen() == old(Unseen()) else Unseen() < old(Unseen())
        invariant Tallied() && old(pieces) <= pieces && (readOffset == readBuf.Length ==> pieces >= 2)
        invariant cuts == old(cuts) + if old(pieces) <= 1 && pieces >= 2 then 1 else 0
        invariant readOffset == old(readOffset) ==> pieces == old(pieces)
        invariant old(readOffset) <= readOffset && stream.target.stalls >= old(stream.target.stalls) && !denied
        decreases readBuf.Length - readOffset
      {
        var window := readBuf.Length - readOffset;
        stop := ReadSome();
        if stop.Some? {
          return;
        }
        ReceivingFits();
        if readOffset == window {
          return None;
        }
      }
    }

    /** A read without room that is answered with zero follows a segment in pieces, and is the last thing that happens. */
    ghost predicate Denial(stop: Option<Poll<Socket>>)
      reads this`denied, this`pieces, this`readOffset, this`readBuf
    {
      denied ==> stop == Some(Ready(Err(ConnectionReset))) && pieces >= 2 && readOffset == readBuf.Length
    }

    lemma ReceivingFits()
      requires Receiving()
      ensures readOffset <= readBuf.Length && !state.Success?
    {
    }

    // ---- The arms of the match ----

    /** The very first turn makes room for the head of the greeting. */
    method SizeArm()
      requires Streams() && InGreeting() && Untouched() && state.Handshake? && readBuf.Length == 0
      modifies this`readBuf
      ensures Streams() && InGreeting() && Untouched() && fresh(readBuf) && readBuf.Length == 2 && readOffset == 0
    {
      readBuf := new byte[2];
      assert readBuf[..0] == [];
    }

    /** Two bytes are there: the head of the greeting, or something that is not SOCKS5. */
    method HeadArm() returns (stop: Option<Poll<Socket>>)
      requires Streams() && InGreeting() && Untouched() && state.Handshake? && readOffset == 2
      modifies this`state, this`pieces, this`readBuf, this`readOffset
      ensures stop.Some? ==> readOffset == old(readOffset)
      ensures pieces == if stop.None? then 0 else old(pieces)
      ensures stop.None? ==>
                && Streams() && InGreeting() && Untouched() && state.Authentication?
                && readOffset == 0 && fresh(readBuf) && writeBuf == []
      ensures stop.Some? ==>
                && Streams() && Untouched() && state.Handshake? && readBuf == old(readBuf) && |head| == 2 && head[0] != 5
                && stop.value == Ready(Err(SocksHead(head[0], head[1])))
    {
      var ver, nmethod := readBuf[0], readBuf[1];
      assert head == [ver, nmethod];
      if ver != 5 {
        return Some(Ready(Err(SocksHead(ver, nmethod))));
      }
      readOffset, pieces := 0, 0;
      readBuf := new byte[nmethod];
      state := Authentication(nmethod);
      assert head == [5, nmethod] + readBuf[..readOffset];
      return None;
    }

    /** The greeting is complete: nothing behind it was taken, unless it is left in the replay buffer. */
    lemma GreetingDone()
      requires InGreeting() && Untouched() && state.Authentication? && readOffset == readBuf.Length
      ensures HeadWhole()
      ensures |OrEmpty(start.backed)| <= |head| ==> Unread(start) == head + stream.target.rest
    {
      ReadsTake(start, sizes);
      var u := Unread(start);
      assert u == u[..|head|] + u[|head|..];
      if |OrEmpty(start.backed)| <= |head| {
        assert Unread(stream.View()) == stream.View().rest == u[|head|..];
      }
    }

    /** Before the first poll of the authentication, notes what follows the greeting. */
    ghost method NoteBehind()
      requires Valid() && state.Authentication? && readOffset == readBuf.Length
      modifies this`behind
      ensures Streams() && InGreeting() && InAuthentication() && auth.Valid()
    {
      hide Unread, AfterReads, CanReadAll, Expects;
      if Untouched() {
        GreetingDone();
        auth.IdleIsValid();
        behind := stream.target.rest;
      }
    }

    method PollAuth() returns (r: Poll<()>)
      requires Streams() && InGreeting() && InAuthentication() && auth.Valid()
      modifies auth`offset, auth`rpos, auth`rbuf, auth`init, auth`cmpUser, auth`cmpPass, auth`got
      modifies auth`wbuf, auth`wpos, auth`said, auth`good
      modifies auth.rbuf, stream`backedBuf, stream`markedBuf, stream.target`sent, stream.target`rest
      modifies stream.target`taken, stream.target`stalls
      ensures r != Ready(Err(ConnectionReset))
      ensures r == Ready(Err(UnexpectedEof)) && (!auth.standard || auth.wbuf.Some?) ==>
                stream.target.stalls > old(stream.target.stalls)
      ensures stream.target.stalls >= old(stream.target.stalls)
      ensures r.Pending? || r == Ready(Err(Io)) ==> stream.target.stalls > old(stream.target.stalls)
      ensures auth.Quiet()
      ensures auth.rbuf == null || auth.rbuf == old(auth.rbuf) || fresh(auth.rbuf)
      ensures readBuf != auth.rbuf && readBuf[..] == old(readBuf[..])
      ensures InAuthentication() && auth.OnlySaid() && |stream.target.rest| <= |old(stream.target.rest)|
      ensures r.Pending? ==> Streams() && auth.Valid()
      ensures r.Ready? && r.result.Ok? ==> Streams() && auth.Passed() && auth.Quiet()
      ensures r.Ready? && r.result.Err? ==> AuthFailed(r.result.error)
    {
      hide S5Authenticate.Passed, S5Authenticate.Explained, S5Authenticate.Reading, S5Authenticate.Replying,
           S5Authenticate.Greeting, HeadWhole, BehindHead;
      r := auth.PollAuth();
    }

    lemma RestUnseen()
      ensures |stream.target.rest| <= Unseen()
    {
    }

    lemma QuietUnseen()
      requires Streams() && auth.Quiet()
      ensures Unseen() == |stream.target.rest|
    {
      PlainRead(stream.target.rest, 0);
    }

    lemma FirstSegment()
      requires InAuthentication() && auth.stream == stream && auth.OnlySaid() && auth.Passed() && auth.Quiet()
      requires state == FIRST_REQUEST && readBuf.Length == 4 && readOffset == 0
      requires req == [] && writeBuf == [] && !resent
      ensures InRequest()
    {
      hide S5Authenticate.Passed, HeadWhole, BehindHead;
      assert req[..0] == [] == readBuf[..0];
      assert auth.got + req == auth.got;
    }

    method ToRequest()
      requires Streams() && InGreeting() && InAuthentication() && auth.OnlySaid() && auth.Passed() && auth.Quiet()
      modifies this`state, this`pieces, this`readBuf, this`readOffset
      ensures pieces == 0
      ensures Streams() && InRequest() && state == FIRST_REQUEST && readOffset == 0 && fresh(readBuf)
    {
      hide S5Authenticate.Passed, InAuthentication, InRequest;
      readOffset, pieces := 0, 0;
      readBuf := new byte[4];
      state := FIRST_REQUEST;
      FirstSegment();
    }

    /** One poll of the authentication; when it passes, the request is next. */
    method AuthArm() returns (stop: Option<Poll<Socket>>)
      requires Valid() && state.Authentication? && readOffset == readBuf.Length
      modifies this`state, this`pieces, this`readBuf, this`readOffset, this`behind
      modifies auth`offset, auth`rpos, auth`rbuf, auth`init, auth`cmpUser, auth`cmpPass, auth`got
      modifies auth`wbuf, auth`wpos, auth`said, auth`good
      modifies auth.rbuf, stream`backedBuf, stream`markedBuf, stream.target`sent, stream.target`rest
      modifies stream.target`taken, stream.target`stalls
      ensures stop != Some(Ready(Err(ConnectionReset)))
      ensures stop.Some? ==> readOffset == old(readOffset)
      ensures stop == Some(Ready(Err(UnexpectedEof))) && (!auth.standard || auth.wbuf.Some?) ==>
                stream.target.stalls > old(stream.target.stalls)
      ensures pieces == if stop.None? then 0 else old(pieces)
      ensures stream.target.stalls >= old(stream.target.stalls)
      ensures stop == Some(Pending) || stop == Some(Ready(Err(Io))) ==> stream.target.stalls > old(stream.target.stalls)
      ensures stream.Unbuffers()
      ensures auth.rbuf == null || auth.rbuf == old(auth.rbuf) || fresh(auth.rbuf)
      ensures stop.None? ==> Streams() && InRequest() && state == FIRST_REQUEST && readOffset == 0 && fresh(readBuf)
      ensures stop.None? ==> Unseen() <= old(Unseen()) && readBuf.Length == 4 && writeBuf == []
      ensures stop.Some? ==> readBuf == old(readBuf)
      ensures stop.Some? ==>
                match stop.value
                case Pending => Valid() && state == old(state) && readBuf == old(readBuf) && readOffset == old(readOffset)
                case Ready(Ok(_)) => false
                case Ready(Err(e)) => AuthFailed(e)
    {
      hide S5Authenticate.Passed, S5Authenticate.Explained, S5Authenticate.Valid, HeadWhole, BehindHead, Unread,
           Untouched, Expects, InSuccess, AuthFailed;
      RestUnseen();
      NoteBehind();
      var r := PollAuth();
      match r {
        case Pending => return Some(Pending);
        case Ready(Err(e)) => return Some(Ready(Err(e)));
        case Ready(Ok(_)) =>
          QuietUnseen();
          ToRequest();
          return None;
      }
    }

    /** Makes room for the next segment of the request. */
    method NextSegment(cmd: byte, rsv: byte, atype: byte, need: nat)
      requires Streams() && Authenticated() && auth.OnlySaid() && !resent && writeBuf == []
      requires |req| >= 4 && req[2] == rsv && atype != 0
      requires if atype == 3 && need == 1 then ExpectsLength(req, cmd) else ExpectsAddress(req, cmd, atype, need)
      modifies this`state, this`pieces, this`readBuf, this`readOffset
      ensures Streams() && InRequest() && state == Request(cmd, rsv, atype, need)
      ensures fresh(readBuf) && readBuf.Length == need && readOffset == 0 && pieces == 0
    {
      hide S5Authenticate.Passed, HeadWhole, BehindHead, ExpectsLength, ExpectsAddress;
      readOffset, pieces := 0, 0;
      readBuf := new byte[need];
      state := Request(cmd, rsv, atype, need);
      assert req[..|req| - 0] == req && req[|req| - 0..] == [] == readBuf[..0];
    }

    /** The four bytes in front of the address. */
    method HeaderArm() returns (stop: Option<Poll<Socket>>)
      requires Streams() && InRequest() && state == FIRST_REQUEST && readOffset == 4
      modifies this`state, this`pieces, this`readBuf, this`readOffset
      ensures stop.Some? ==> readOffset == old(readOffset)
      ensures pieces == if stop.None? then 0 else old(pieces)
      ensures stop.None? ==>
                && Streams() && InRequest() && state.Request? && fresh(readBuf) && readOffset == 0 && 0 < readBuf.Length
                && writeBuf == []
      ensures stop.Some? ==>
                && readBuf == old(readBuf)
                && stop.value.Ready? && stop.value.result.Err? && Refused(stop.value.result.error)
    {
      hide S5Authenticate.Passed, HeadWhole, BehindHead, ExpectsLength, ExpectsAddress;
      var ver, cmd, rsv, atype := readBuf[0], readBuf[1], readBuf[2], readBuf[3];
      assert req == [ver, cmd, rsv, atype];
      if ver != 5 {
        return Some(Ready(Err(SocksProtocol)));
      }
      var len: nat;
      match atype {
        case 1 => len := 6;
        case 3 => len := 1;
        case 4 => len := 18;
        case _ => return Some(Ready(Err(SocksInvalidAddress)));
      }
      AfterHeader(cmd, rsv, atype);
      NextSegment(cmd, rsv, atype, len);
      return None;
    }

    /** The length of a domain; in eight bits, so that 254 asks for nothing and 255 for another length. */
    method LengthArm()
      requires Streams() && InRequest() && state.atype == 3 && state.need == 1 && readOffset == 1
      modifies this`state, this`pieces, this`readBuf, this`readOffset
      ensures pieces == 0
      ensures Streams() && InRequest() && state.Request? && fresh(readBuf) && readOffset == 0 && writeBuf == []
    {
      hide S5Authenticate.Passed, HeadWhole, BehindHead, ScanRequest;
      var len := NeedAfterLength(readBuf[0]);
      AfterLength(req[..|req| - 1], state.cmd, readBuf[0]);
      assert req == req[..|req| - 1] + [readBuf[0]];
      NextSegment(state.cmd, state.rsv, 3, len);
    }

    /** The address is complete. */
    method AddressArm() returns (stop: Option<Poll<Socket>>)
      requires Streams() && InRequest() && state != FIRST_REQUEST && !(state.atype == 3 && state.need == 1)
      requires readOffset == state.need
      modifies this`state, this`pieces, this`readBuf, this`readOffset, this`writeBuf
      ensures stop.Some? ==> readOffset == old(readOffset)
      ensures pieces == if stop.None? then 0 else old(pieces)
      ensures stop.None? ==>
                Streams() && InSuccess() && state.Success? && fresh(readBuf) && readBuf.Length == 0 && readOffset == 0
      ensures stop.Some? ==>
                && readBuf == old(readBuf)
                && stop.value.Ready? && stop.value.result.Err? && Refused(stop.value.result.error)
    {
      hide S5Authenticate.Passed, HeadWhole, BehindHead, ScanRequest;
      var data := readBuf[..];
      assert req == req[..|req| - readOffset] + data;
      var parsed := ParseAddress(state.cmd, state.atype, data);
      if parsed.Err? {
        return Some(Ready(Err(parsed.error)));
      }
      readOffset, pieces := 0, 0;
      readBuf := new byte[0];
      writeBuf := if parsed.value.Udp? then [] else Reply(state.rsv);
      state := Success(parsed.value);
      return None;
    }

    /** Greeting and authentication are done; the request is complete and is one that the source refuses. */
    ghost predicate Refused(e: Error)
      reads this`state, this`readBuf, this`readOffset, this`writeBuf, this`head, this`sizes, this`behind, this`req, this`resent
      reads auth, stream`backedBuf, stream`markedBuf, stream.target`rest, stream.target`sent
    {
      Authenticated() && ScanRequest(req) == Parsed(Err(e), |req|)
    }

    /** The greeting was read in full, and the authentication behind it ended with an error. */
    ghost predicate AuthFailed(e: Error)
      reads this`head, this`behind, auth, stream.target`rest
      requires auth.stream == stream
    {
      && InAuthentication()
      && if auth.standard then auth.Explained(e) else auth.got == [] && e in {Io, UnexpectedEof}
    }

    /** Offers the whole reply; it is done with when all of it is taken at once. */
    method OfferReply() returns (w: Poll<nat>)
      requires Streams() && InSuccess() && writeBuf != []
      modifies this`writeBuf, this`resent, stream`backedBuf, stream`markedBuf, stream.target`sent, stream.target`stalls
      ensures old(resent) ==> resent
      ensures Streams() && InSuccess() && stream.Unbuffers() && Unseen() == old(Unseen())
      ensures w.Ready? && w.result.Ok? && w.result.value != 0 ==>
                && stream.target.stalls == old(stream.target.stalls)
                && (writeBuf == [] || (writeBuf == old(writeBuf) && resent))
      ensures !(w.Ready? && w.result.Ok? && w.result.value != 0) ==>
                && stream.target.stalls == old(stream.target.stalls) + 1
                && writeBuf == old(writeBuf) && resent == old(resent)
      ensures w.Ready? && w.result.Err? ==> w.result.error == Io
    {
      hide S5Authenticate.Passed, HeadWhole, BehindHead, ScanRequest, Unread, Unseen;
      QuietUnseen();
      w := stream.PollWrite(writeBuf);
      assert stream.View().backed == None && stream.View().marked == None;
      if w.Ready? && w.result.Ok? && w.result.value != 0 {
        if w.result.value == |writeBuf| {
          assert writeBuf[..w.result.value] == writeBuf;
          writeBuf := [];
        } else {
          resent := true;
        }
      }
      QuietUnseen();
    }

    /**
     The write loop offers the whole reply again after a part of it was taken. It may turn for ever;
     `turns` bounds how often it is followed before the transport is assumed to answer Pending.
     */
    method WritePhase(turns: nat) returns (stop: Option<Poll<Socket>>)
      requires Streams() && InSuccess() && state.Success? && writeBuf != []
      modifies this`writeBuf, this`resent, stream`backedBuf, stream`markedBuf, stream.target`sent, stream.target`stalls
      ensures old(resent) ==> resent
      ensures stream.target.stalls >= old(stream.target.stalls)
      ensures stop == Some(Pending) ==> resent || turns == 0 || stream.target.stalls > old(stream.target.stalls)
      ensures stop.Some? && stop.value.Ready? ==> stream.target.stalls > old(stream.target.stalls)
      ensures stream.Unbuffers() && Streams() && InSuccess()
      ensures stop.None? ==> writeBuf == [] && Unseen() == old(Unseen()) && Rank() < old(Rank())
      ensures stop.Some? ==>
                match stop.value
                case Pending => true
                case Ready(Ok(_)) => false
                case Ready(Err(e)) => e == Io || e == ConnectionReset
    {
      hide Streams, InSuccess, Unseen;
      var left := turns;
      while left > 0
        invariant Streams() && InSuccess() && writeBuf == old(writeBuf) && Unseen() == old(Unseen()) && stream.Unbuffers()
        invariant stream.target.stalls >= old(stream.target.stalls) && (left < turns || old(resent) ==> resent)
      {
        var w := OfferReply();
        if w.Pending? {
          return Some(Pending);
        } else if w.result.Err? {
          return Some(Ready(Err(w.result.error)));
        } else if w.result.value == 0 {
          return Some(Ready(Err(ConnectionReset)));
        } else if writeBuf == [] {
          return None;
        }
        left := left - 1;
      }
      return Some(Pending);
    }

    ghost function Rank(): nat
      reads this`state, this`readBuf, this`writeBuf
    {
      match state
      case Handshake => 6
      case Authentication(_) => 5
      case Request(_, _, _, _) => if readBuf.Length == 0 then 3 else 4
      case Success(_) => if writeBuf == [] then 1 else 2
    }

    lemma StageOf()
      requires Valid()
      ensures Streams() && auth.stream == stream && readOffset <= readBuf.Length
      ensures state.Handshake? ==> InGreeting() && Untouched() && readBuf.Length in {0, 2} && writeBuf == []
      ensures state.Authentication? ==>
                && InGreeting() && state.methods == readBuf.Length && writeBuf == []
                && (readOffset < readBuf.Length ==> Untouched())
      ensures state.Request? ==> InRequest() && state.need == readBuf.Length && writeBuf == []
      ensures state.Success? ==> InSuccess() && readBuf.Length == 0 && readOffset == 0
    {
    }

    /** How a match that goes on leaves things: nearer to the end, and a segment that is partly there still so. */
    twostate predicate Advanced()
      reads this`state, this`readBuf, this`readOffset, this`writeBuf, this`head, this`sizes, this`behind, this`req, this`resent
      reads readBuf, stream, stream.backedBuf, stream.markedBuf, stream.target`rest, stream.target`sent, auth
    {
      && Unseen() <= old(Unseen()) && Rank() <= old(Rank())
      && Matched()
      && (readBuf.Length == 0 && writeBuf == [] ==> Rank() < old(Rank()))
      && (old(Midway()) ==> Midway())
    }

    /** A new segment counts from nothing; a match does not end a poll within a segment. */
    twostate predicate Counted(stopped: bool)
      reads this`pieces, this`readOffset, this`readBuf, this`cuts
    {
      && Tallied() && (stopped ==> pieces == old(pieces) && !old(Midway()))
      && pieces == if old(Midway()) || stopped || readOffset != 0 then old(pieces) else 0
    }

    ghost predicate MatchEnded(r: Poll<Socket>)
      reads this`state, this`readBuf, this`readOffset, this`writeBuf, this`head, this`sizes, this`behind, this`req, this`resent
      reads readBuf, auth, auth.rbuf, stream, stream.backedBuf, stream.markedBuf, stream.target`rest, stream.target`sent
    {
      && auth.stream == stream
      && match r
         case Pending => Valid()
         case Ready(Ok(socket)) => Streams() && Done(socket)
         case Ready(Err(e)) => MatchFailed(e) && e != ConnectionReset
    }

    ghost predicate MatchBlames(r: Poll<Socket>)
      reads auth`wbuf
    {
      r == Pending || r == Ready(Err(Io)) || (r == Ready(Err(UnexpectedEof)) && (!auth.standard || auth.wbuf.Some?))
    }

    /** The arms for the greeting. */
    method MatchGreeting() returns (stop: Option<Poll<Socket>>)
      requires Valid() && Tallied() && (state.Handshake? || state.Authentication?)
      modifies this`state, this`pieces, this`readBuf, this`readOffset, this`writeBuf, this`behind
      modifies auth`offset, auth`rpos, auth`rbuf, auth`init, auth`cmpUser, auth`cmpPass, auth`got
      modifies auth`wbuf, auth`wpos, auth`said, auth`good
      modifies auth.rbuf, stream`backedBuf, stream`markedBuf, stream.target`sent, stream.target`rest
      modifies stream.target`taken, stream.target`stalls
      ensures stream.target.stalls >= old(stream.target.stalls)
      ensures stop.Some? && MatchBlames(stop.value) ==> stream.target.stalls > old(stream.target.stalls)
      ensures stream.Unbuffers()
      ensures auth.rbuf == null || auth.rbuf == old(auth.rbuf) || fresh(auth.rbuf)
      ensures readBuf == old(readBuf) || fresh(readBuf)
      ensures Counted(stop.Some?)
      ensures stop.None? ==> Advanced()
      ensures stop.Some? ==> MatchEnded(stop.value)
    {
      hide Untouched, InGreeting, InRequest, InSuccess, AuthFailed, Refused, Unseen, Valid, Streams;
      StageOf();
      stop := None;
      if state.Authentication? {
        if state.methods == readOffset {
          stop := AuthArm();
        }
      } else if readBuf.Length == 0 {
        SizeArm();
      } else if readOffset == 2 {
        stop := HeadArm();
      }
    }

    /** The arms for the request. */
    method MatchRequest() returns (stop: Option<Poll<Socket>>)
      requires Streams() && InRequest() && Tallied()
      modifies this`state, this`pieces, this`readBuf, this`readOffset, this`writeBuf
      ensures readBuf == old(readBuf) || fresh(readBuf)
      ensures Counted(stop.Some?)
      ensures stop.None? ==> Advanced()
      ensures stop.Some? ==> MatchEnded(stop.value)
      ensures stop.Some? ==> !MatchBlames(stop.value)
    {
      hide InRequest, InSuccess, InGreeting, Untouched, Refused, MatchFailed, Streams, Receiving, Unseen;
      NeedIsLength();
      stop := None;
      if state == FIRST_REQUEST && readOffset == 4 {
        stop := HeaderArm();
      } else if state.atype == 3 && state.need == 1 && readOffset == 1 {
        LengthArm();
      } else if state.need == readOffset {
        stop := AddressArm();
      }
      if stop.Some? {
        RefusedFails(stop.value.result.error);
      } else if state.Request? {
        NeedIsLength();
        RequestReceives();
      }
    }

    lemma NeedIsLength()
      requires Streams() && InRequest()
      ensures state.Request? && readOffset <= readBuf.Length && state.need == readBuf.Length && writeBuf == []
      ensures auth.stream == stream
    {
    }

    lemma RefusedFails(e: Error)
      requires auth.stream == stream && Refused(e)
      ensures MatchFailed(e) && e !in TRANSPORT
    {
      NeverDeclined(0, req);
    }

    lemma RequestReceives()
      requires Streams() && InRequest() && readOffset <= readBuf.Length
      ensures Receiving()
    {
    }

    /** The arm at the end. */
    method MatchSuccess() returns (stop: Option<Poll<Socket>>)
      requires Streams() && InSuccess() && Tallied() && auth.stream == stream
      ensures Counted(stop.Some?)
      ensures stop.None? ==> Advanced()
      ensures stop.Some? ==> MatchEnded(stop.value)
      ensures stop.Some? ==> !MatchBlames(stop.value)
    {
      hide Streams, Authenticated, Unseen, Answered;
      stop := None;
      if writeBuf == [] {
        stop := Some(Ready(Ok(state.socket)));
      }
    }

    /** The match at the top of a turn. */
    method Match() returns (stop: Option<Poll<Socket>>)
      requires Valid() && Tallied()
      modifies this`state, this`pieces, this`readBuf, this`readOffset, this`writeBuf, this`behind
      modifies auth`offset, auth`rpos, auth`rbuf, auth`init, auth`cmpUser, auth`cmpPass, auth`got
      modifies auth`wbuf, auth`wpos, auth`said, auth`good
      modifies auth.rbuf, stream`backedBuf, stream`markedBuf, stream.target`sent, stream.target`rest
      modifies stream.target`taken, stream.target`stalls
      ensures stream.target.stalls >= old(stream.target.stalls)
      ensures stop.Some? && MatchBlames(stop.value) ==> stream.target.stalls > old(stream.target.stalls)
      ensures stream.Unbuffers()
      ensures auth.rbuf == null || auth.rbuf == old(auth.rbuf) || fresh(auth.rbuf)
      ensures readBuf == old(readBuf) || fresh(readBuf)
      ensures old(state.Success?) ==> state.Success?
      ensures Counted(stop.Some?)
      ensures stop.None? ==> Advanced()
      ensures stop.Some? ==> MatchEnded(stop.value)
    {
      hide Valid, InSuccess, InRequest, InGreeting, Untouched, Streams, Advanced, Counted, MatchEnded, MatchBlames;
      StageOf();
      if state.Success? {
        stop := MatchSuccess();
      } else if state.Request? {
        stop := MatchRequest();
      } else {
        stop := MatchGreeting();
      }
    }

    /** The handshake is complete. */
    ghost predicate Done(socket: Socket)
      reads this`state, this`readBuf, this`readOffset, this`writeBuf, this`head, this`sizes, this`behind, this`req, this`resent
      reads readBuf, auth, stream`backedBuf, stream`markedBuf, stream.target`rest, stream.target`sent
    {
      InSuccess() && state.socket == socket && writeBuf == []
    }

    ghost predicate MatchFailed(e: Error)
      reads this`state, this`readBuf, this`readOffset, this`writeBuf, this`head, this`sizes, this`behind, this`req, this`resent
      reads auth, stream, stream.backedBuf, stream.markedBuf, stream.target`rest, stream.target`sent
      requires auth.stream == stream
    {
      || Declined(e)
      || AuthFailed(e)
      || Refused(e)
    }

    /** Not SOCKS5: two bytes were read, nothing was written. */
    ghost predicate Declined(e: Error)
      reads this`state, this`readBuf, this`readOffset, this`writeBuf, this`head, this`sizes, this`behind, this`req, this`resent
      reads auth, stream, stream.backedBuf, stream.markedBuf, stream.target`rest, stream.target`sent
    {
      Streams() && Untouched() && |head| == 2 && head[0] != 5 && e == SocksHead(head[0], head[1])
    }

    /** Whether this answer of a turn or of a poll is one the transport is to blame for. */
    ghost predicate Blames(r: Poll<Socket>, turns: nat)
      reads this`state, this`resent, auth`wbuf
    {
      match r
      case Pending => !(state.Success? && (resent || turns == 0))
      case Ready(Ok(_)) => false
      case Ready(Err(e)) =>
        || e == Io
        || (e == UnexpectedEof && (!auth.standard || auth.wbuf.Some?))
        || (e == ConnectionReset && state.Success?)
    }

    /**
     One turn of the loop. A segment that is there in part when the turn begins, or that takes a second
     read in it, is still there only in part when it goes on to the next turn.
     */
    method Turn(turns: nat) returns (stop: Option<Poll<Socket>>)
      requires Valid() && Tallied() && !denied
      modifies this`state, this`readBuf, this`readOffset, this`writeBuf, this`head, this`sizes, this`behind, this`req
      modifies this`resent, this`pieces, this`cuts, this`denied, readBuf
      modifies auth`offset, auth`rpos, auth`rbuf, auth`init, auth`cmpUser, auth`cmpPass, auth`got
      modifies auth`wbuf, auth`wpos, auth`said, auth`good, auth.rbuf
      modifies stream`backedBuf, stream`markedBuf, stream.backedBuf, stream.markedBuf
      modifies stream.target`sent, stream.target`rest, stream.target`taken, stream.target`stalls
      ensures old(Midway() || pieces <= 1) ==> cuts == old(cuts) + if old(pieces) <= 1 && pieces >= 2 then 1 else 0
      ensures old(Midway()) ==> pieces >= old(pieces)
      ensures old(resent) ==> resent
      ensures old(state.Success?) ==> state.Success?
      ensures stream.target.stalls >= old(stream.target.stalls)
      ensures stop.Some? && Blames(stop.value, turns) ==> stream.target.stalls > old(stream.target.stalls)
      ensures stream.Unbuffers()
      ensures auth.rbuf == null || auth.rbuf == old(auth.rbuf) || fresh(auth.rbuf)
      ensures readBuf == old(readBuf) || fresh(readBuf)
      ensures Tallied() && cuts >= old(cuts)
      ensures stop.None? ==>
                && Valid() && (old(Midway()) || cuts > old(cuts) ==> Midway()) && !denied
                && Unseen() <= old(Unseen()) && (Unseen() < old(Unseen()) || Rank() < old(Rank()))
      ensures stop.Some? ==> Ended(stop.value)
      ensures stop.Some? && stop.value.Ready? && stop.value.result.Ok? ==> !old(Midway()) && cuts == old(cuts)
    {
      hide Matched, Valid, Unseen, Rank, Ended, Blames, Tallied, Midway, MatchEnded, MatchBlames, Denial;
      StageOf();
      stop := Match();
      if stop.Some? {
        MatchEnds(stop.value, turns);
      } else {
        stop := Transfer(turns);
      }
    }

    lemma MatchEnds(r: Poll<Socket>, turns: nat)
      requires MatchEnded(r) && !denied
      ensures Ended(r) && (Blames(r, turns) ==> MatchBlames(r))
    {
    }

    /** The reply is to go out, or a segment is to come in, or there is nothing to do. */
    ghost predicate Matched()
      reads this`state, this`readBuf, this`readOffset, this`writeBuf, this`head, this`sizes, this`behind, this`req, this`resent
      reads readBuf, stream, stream.backedBuf, stream.markedBuf, stream.target`rest, stream.target`sent, auth
    {
      || (Streams() && InSuccess() && state.Success? && readBuf.Length == 0)
      || (Receiving() && writeBuf == [] && (readOffset < readBuf.Length || readBuf.Length == 0))
    }

    /** What follows the match: the reply goes out, or the current segment comes in. */
    method Transfer(turns: nat) returns (stop: Option<Poll<Socket>>)
      requires Matched() && Tallied() && !denied
      modifies this`readOffset, this`writeBuf, this`head, this`sizes, this`req, this`resent, this`pieces, this`cuts
      modifies this`denied, readBuf
      modifies stream`backedBuf, stream`markedBuf, stream.backedBuf, stream.markedBuf
      modifies stream.target`sent, stream.target`rest, stream.target`taken, stream.target`stalls
      ensures old(pieces) <= pieces && cuts == old(cuts) + if old(pieces) <= 1 && pieces >= 2 then 1 else 0
      ensures old(resent) ==> resent
      ensures stream.target.stalls >= old(stream.target.stalls)
      ensures stop.Some? && Blames(stop.value, turns) ==> stream.target.stalls > old(stream.target.stalls)
      ensures stream.Unbuffers() && Tallied() && cuts >= old(cuts)
      ensures stop.None? ==> Valid() && (old(Midway()) || cuts > old(cuts) ==> Midway()) && !denied
      ensures stop.None? ==>
                && Unseen() <= old(Unseen()) && Rank() <= old(Rank())
                && (old(readBuf.Length != 0 || writeBuf != []) ==> Unseen() < old(Unseen()) || Rank() < old(Rank()))
      ensures stop.Some? ==> Ended(stop.value) && !(stop.value.Ready? && stop.value.result.Ok?)
    {
      hide InSuccess, Streams, Unseen, Rank, Starved, Valid, Receiving, Ended;
      stop := None;
      if writeBuf != [] {
        stop := WritePhase(turns);
        if stop.Some? {
          WriteEnds(stop.value);
          return;
        }
      }
      if readBuf.Length != 0 {
        ReceivingFits();
        stop := ReadPhase();
        if stop.Some? {
          ReadEnds(stop.value);
          return;
        }
        RankOfReading();
      }
      GoesOn();
    }

    twostate lemma RankOfReading()
      requires state == old(state) && readBuf == old(readBuf) && writeBuf == old(writeBuf)
      ensures Rank() == old(Rank())
    {
    }

    lemma GoesOn()
      requires Receiving() || (Streams() && InSuccess())
      ensures Valid()
    {
    }

    lemma WriteEnds(r: Poll<Socket>)
      requires Streams() && InSuccess() && state.Success? && !denied
      requires r.Pending? || r == Ready(Err(Io)) || r == Ready(Err(ConnectionReset))
      ensures Ended(r)
    {
    }

    lemma ReadEnds(r: Poll<Socket>)
      requires match r
               case Pending => Receiving()
               case Ready(Ok(_)) => false
               case Ready(Err(e)) => e == Io || (e == ConnectionReset && (denied || Starved()))
      requires Denial(Some(r))
      ensures Ended(r)
    {
    }

    /**
     How a poll ends, and why. A reset means that a read without room was answered with zero, after a
     segment in pieces; that the stream ended; or that the reply was refused.
     */
    ghost predicate Ended(r: Poll<Socket>)
      reads this, readBuf, auth, auth.rbuf, stream, stream.backedBuf, stream.markedBuf, stream.target`rest, stream.target`sent
    {
      && Denial(Some(r))
      && match r
         case Pending => Valid()
         case Ready(Ok(socket)) => Streams() && Done(socket)
         case Ready(Err(e)) =>
           || e == Io
           || (auth.stream == stream && MatchFailed(e))
           || (e == ConnectionReset && (denied || Starved() || (state.Success? && InSuccess())))
    }

    /**
     One poll. However the stream was cut up, success means that exactly a greeting, a passed
     authentication and a request for the socket were read. A segment that takes its second read in
     this poll ends the poll without success: with a reset if the read without room that follows it is
     answered with zero, and otherwise the next poll may go on.
     */
    method Poll(turns: nat) returns (r: Poll<Socket>)
      requires Valid() && Tallied() && !denied
      modifies this`state, this`readBuf, this`readOffset, this`writeBuf, this`head, this`sizes, this`behind, this`req
      modifies this`resent, this`pieces, this`cuts, this`denied, readBuf
      modifies auth`offset, auth`rpos, auth`rbuf, auth`init, auth`cmpUser, auth`cmpPass, auth`got
      modifies auth`wbuf, auth`wpos, auth`said, auth`good, auth.rbuf
      modifies stream`backedBuf, stream`markedBuf, stream.backedBuf, stream.markedBuf
      modifies stream.target`sent, stream.target`rest, stream.target`taken, stream.target`stalls
      ensures old(pieces) <= 1 ==> cuts == old(cuts) + if pieces >= 2 then 1 else 0
      ensures old(resent) ==> resent
      ensures old(state.Success?) ==> state.Success?
      ensures stream.target.stalls >= old(stream.target.stalls)
      ensures Blames(r, turns) ==> stream.target.stalls > old(stream.target.stalls)
      ensures stream.Unbuffers()
      ensures auth.rbuf == null || auth.rbuf == old(auth.rbuf) || fresh(auth.rbuf)
      ensures readBuf == old(readBuf) || fresh(readBuf)
      ensures Ended(r) && Tallied() && cuts >= old(cuts)
      ensures r.Ready? && r.result.Ok? ==> !old(Midway()) && cuts == old(cuts)
    {
      hide Valid, Ended, Unseen, Rank, Blames, Tallied;
      while true
        invariant Valid() && Tallied() && cuts >= old(cuts) && (old(resent) ==> resent) && !denied
        invariant old(state.Success?) ==> state.Success?
        invariant auth.rbuf == null || auth.rbuf == old(auth.rbuf) || fresh(auth.rbuf)
        invariant readBuf == old(readBuf) || fresh(readBuf)
        invariant old(Midway()) || cuts > old(cuts) ==> Midway()
        invariant old(pieces) <= 1 ==> cuts == old(cuts) + if pieces >= 2 then 1 else 0
        invariant stream.backedBuf == null || stream.backedBuf == old(stream.backedBuf)
        invariant stream.markedBuf == null || stream.markedBuf == old(stream.markedBuf)
        invariant stream.target.stalls >= old(stream.target.stalls)
        decreases Unseen(), Rank()
      {
        var stop := Turn(turns);
        if stop.Some? {
          return stop.value;
        }
      }
    }
  }
}
