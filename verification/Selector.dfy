/**
 Guessing what a visitor speaks, and handing it over to its target: the adapters of
 src/net/penetrate/selector.rs and the routing arm of src/net/penetrate/server.rs.
 */
module Selector {
  import opened Common
  import AsyncIo
  import opened FallbackSpec
  import opened Fallback
  import Ext
  import opened SocksAddr
  import opened SocksRequest
  import opened Socks
  import opened Handshake

  type Credentials = Option<(Bytes, Bytes)>

  /** The handshake with what the server's configuration says of it, or the default target. */
  datatype Adapter =
    | SocksMock(enabled: bool, username: Option<Bytes>, password: Option<Bytes>, whoami: Bytes)
    | DirectMock

  /**
   What became of the visitor: `Socks` carries the request, `Direct` has the default target, and
   `Finished` was told that UDP is not forwarded.
   */
  datatype Peer = Unknown | Direct | Socks(socket: Socket) | Finished

  /** `finish_udp_forward`. */
  const UDP_REFUSAL: Bytes := [5, 2, 0, 1, 0, 0, 0, 0, 0, 0]

  /** `get_auth!`: a password alone goes with the name of the server. */
  function GetAuth(username: Option<Bytes>, password: Option<Bytes>, whoami: Bytes): Credentials {
    match (password, username)
    case (Some(p), Some(u)) => Some((u, p))
    case (Some(p), None) => Some((whoami, p))
    case _ => None
  }

  /** The replay buffer holds at most the two bytes that a declined handshake has read. */
  ghost predicate ShortBacklog(v: View) {
    |OrEmpty(v.backed)| <= 2
  }

  /** The handshake ended with an error that is not a decline; a blameless transport did not stall. */
  ghost predicate FailedAs(h: Socks5, e: Error)
    reads h, h.readBuf, h.auth, h.auth.rbuf
    reads h.stream, h.stream.backedBuf, h.stream.markedBuf, h.stream.target`rest, h.stream.target`sent
  {
    !e.SocksHead? && h.Ended(Ready(Err(e)))
  }

  lemma DoneIsQuiet(h: Socks5, socket: Socket)
    requires h.Ended(Ready(Ok(socket)))
    ensures h.Streams() && h.Done(socket) && h.stream.backedBuf == null && h.stream.markedBuf == null
  {
  }

  /** The one error that the mock takes for "not SOCKS" comes before anything is written. */
  lemma DeclinedUntouched(h: Socks5, e: Error)
    requires h.Ended(Ready(Err(e))) && e.SocksHead?
    ensures CanReadAll(h.start, h.sizes) && Sum(h.sizes) == 2 && h.stream.View() == AfterReads(h.start, h.sizes)
    ensures Foreign(Unread(h.start))
    ensures h.stream.Valid() && h.stream.target.sent == h.auth.before
  {
    NeverDeclined(0, h.req);
    assert h.head[0] == Unread(h.start)[0];
  }

  ghost predicate ToBeDeclined(start: View) {
    Foreign(Unread(start)) && FreshStart(start)
  }

  /**
   A handshake driven for up to `polls` polls. None: still waiting, since the transport stood still at
   every poll. No socket: declined, having read two bytes and written nothing, which is how it ends for
   every visitor that does not begin with 5, whenever its bytes come, unless they come in pieces and the
   read without room behind them is answered with zero. A socket: the handshake is done.
   */
  method CallSocks(stream: Fallback, credentials: Credentials, polls: nat, turns: nat)
    returns (r: Option<Result<Option<Socket>>>, ghost h: Socks5)
    requires stream.Valid() && !stream.strict
    modifies stream`backedBuf, stream`markedBuf, stream.backedBuf, stream.markedBuf
    modifies stream.target`sent, stream.target`rest, stream.target`taken, stream.target`stalls
    ensures stream.Unbuffers() && stream.target.stalls >= old(stream.target.stalls)
    ensures h.stream == stream && h.start == old(stream.View()) && h.auth.before == old(stream.target.sent)
    ensures h.auth.standard == credentials.Some?
    ensures credentials.Some? ==> h.auth.username == credentials.value.0 && h.auth.password == credentials.value.1
    ensures r.None? ==>
              || stream.target.stalls >= old(stream.target.stalls) + polls
              || (h.state.Success? && (turns == 0 || h.resent))
    ensures h.denied ==> r == Some(Err(ConnectionReset)) && h.pieces >= 2
    ensures r.Some? && r.value.Err? ==>
              && FailedAs(h, r.value.error)
              && (h.Blames(Ready(Err(r.value.error)), turns) ==> stream.target.stalls > old(stream.target.stalls))
    ensures r.Some? && r.value.Ok? && r.value.value.None? ==>
              && stream.Valid() && stream.target.sent == old(stream.target.sent)
              && CanReadAll(h.start, h.sizes) && Sum(h.sizes) == 2 && stream.View() == AfterReads(h.start, h.sizes)
              && Foreign(Unread(h.start))
    ensures ToBeDeclined(h.start) ==>
              match r
              case None => stream.target.stalls >= old(stream.target.stalls) + polls
              case Some(Ok(socket)) => socket.None?
              case Some(Err(e)) =>
                (e == Io && stream.target.stalls > old(stream.target.stalls)) || (e == ConnectionReset && h.denied)
    ensures r.Some? && r.value.Ok? && r.value.value.Some? ==>
              && h.Streams() && h.Done(r.value.value.value) && stream.backedBuf == null && stream.markedBuf == null
    ensures forall c: Client | FreshStart(h.start) && Speaks(Unread(h.start), c, credentials.Some?) ::
              match r
              case None => true
              case Some(Ok(socket)) => socket == Some(Wanted(c)) && stream.target.rest == c.tail && Entitled(h, c.user, c.pass)
              case Some(Err(e)) =>
                || !Entitled(h, c.user, c.pass) || stream.target.stalls > old(stream.target.stalls)
                || (e == ConnectionReset && h.denied)
  {
    hide Socks5.Valid, Socks5.Streams, Socks5.Ended, Socks5.Done, Socks5.Declined, Socks5.Blames, Socks5.Tallied;
    hide CanReadAll, AfterReads, Sum, Unread, FreshStart, Foreign, Speaks;
    var hs := new Socks5(stream, credentials);
    h := hs;
    var i := 0;
    r := None;
    while i < polls
      invariant fresh(hs) && fresh(hs.auth) && (hs.auth.rbuf == null || fresh(hs.auth.rbuf)) && fresh(hs.readBuf)
      invariant h == hs && hs.stream == stream && hs.Valid() && hs.Tallied() && stream.Unbuffers() && i <= polls && !hs.denied
      invariant stream.target.stalls >= old(stream.target.stalls)
      invariant || stream.target.stalls >= old(stream.target.stalls) + i
                || (hs.state.Success? && (turns == 0 || hs.resent))
    {
      i := i + 1;
      var p := hs.Poll(turns);
      if p.Ready? {
        forall c: Client | FreshStart(h.start) && Speaks(Unread(h.start), c, credentials.Some?)
          ensures p.result.Ok? ==> p.result.value == Wanted(c) && stream.target.rest == c.tail && Entitled(h, c.user, c.pass)
          ensures p.result.Err? && Entitled(h, c.user, c.pass) ==> h.denied || h.Blames(p, turns)
          ensures !Foreign(Unread(h.start))
        {
          ClientEnds(hs, p.result, turns, c);
          SpeaksAsks(hs, c);
        }
      }
      match p {
        case Pending =>
          Waits(hs, turns);
        case Ready(Ok(socket)) =>
          DoneIsQuiet(hs, socket);
          ForeignEnds(hs, p.result, turns);
          return Some(Ok(Some(socket))), hs;
        case Ready(Err(e)) =>
          ForeignEnds(hs, p.result, turns);
          if e.SocksHead? {
            DeclinedUntouched(hs, e);
            return Some(Ok(None)), hs;
          }
          return Some(Err(e)), hs;
      }
    }
    if ToBeDeclined(h.start) {
      ForeignWaits(h);
    }
  }

  lemma ForeignEnds(h: Socks5, r: Result<Socket>, turns: nat)
    requires h.Ended(Ready(r)) && h.Tallied()
    ensures ToBeDeclined(h.start) ==> r.Err? && (r.error.SocksHead? || r.error == Io || (r.error == ConnectionReset && h.denied))
    ensures r == Err(Io) ==> h.Blames(Ready(r), turns)
    ensures r.Err? && !r.error.SocksHead? ==> FailedAs(h, r.error)
    ensures h.denied ==> r == Err(ConnectionReset) && h.pieces >= 2
  {
    hide Foreign, FreshStart, Unread, Socks5.Starved, Socks5.InSuccess, Socks5.MatchFailed, Socks5.Valid;
    if ToBeDeclined(h.start) {
      ForeignIsDeclined(h, r);
    }
  }

  /** Nothing of the visitor's stream is lost, nothing was written. */
  ghost predicate Intact(stream: Fallback, all: Bytes, sent: Bytes)
    reads stream, stream.backedBuf, stream.markedBuf, stream.target`rest, stream.target`sent
  {
    stream.Valid() && Unread(stream.View()) == all && stream.target.sent == sent
  }

  /** A declined handshake, rewound: the stream is as it was, with two bytes to replay. */
  lemma DeclineRestores(v: View, sizes: seq<nat>)
    requires ShortBacklog(v) && OrEmpty(v.marked) == []
    requires CanReadAll(Marked(v), sizes) && Sum(sizes) == 2
    ensures var w := Rewound(AfterReads(Marked(v), sizes));
            Unread(w) == Unread(v) && w.marked == None && FreshStart(w)
  {
    var bare := v.(marked := None);
    assert Marked(bare) == Marked(v);
    CleanPeekRestores(bare, sizes);
    PeekRotates(bare, sizes);
  }

  lemma MarkKeeps(v: View)
    requires ShortBacklog(v) && OrEmpty(v.marked) == []
    ensures Unread(Marked(v)) == Unread(v) && OrEmpty(Marked(v).marked) == [] && ShortBacklog(Marked(v))
  {
  }

  /** A mark and a rewind with nothing in between. */
  lemma SkipRestores(v: View)
    requires ShortBacklog(v) && OrEmpty(v.marked) == []
    ensures var w := Rewound(Marked(v));
            Unread(w) == Unread(v) && w.marked == None && ShortBacklog(w)
  {
  }

  datatype Attempt = Waiting | Failed(error: Error) | Declined | Taken(peer: Peer)

  /** Nothing is lost, and the next adapter can start. */
  ghost predicate Ready4Next(stream: Fallback, all: Bytes, sent: Bytes)
    reads stream, stream.backedBuf, stream.markedBuf, stream.target`rest, stream.target`sent
  {
    Intact(stream, all, sent) && ShortBacklog(stream.View()) && OrEmpty(stream.View().marked) == []
  }

  /** The handshake `h` was made on the whole stream and is complete. */
  ghost predicate Handshaken(stream: Fallback, all: Bytes, h: Option<Socks5>, socket: Socket)
    reads stream`backedBuf, stream`markedBuf
    reads if h.Some? then {h.value, h.value.readBuf, h.value.auth, h.value.auth.stream, h.value.stream, h.value.stream.target} else {}
    reads if h.Some? && h.value.stream.backedBuf != null then {h.value.stream.backedBuf} else {}
    reads if h.Some? && h.value.stream.markedBuf != null then {h.value.stream.markedBuf} else {}
  {
    && h.Some? && h.value.stream == stream && h.value.Streams() && h.value.Done(socket)
    && stream.backedBuf == null && stream.markedBuf == null
    && Unread(h.value.start) == all && ShortBacklog(h.value.start)
  }

  /** The handshake was for UDP, which was refused. */
  ghost predicate ToldNoUdp(stream: Fallback, all: Bytes, h: Option<Socks5>)
    reads stream`backedBuf, stream`markedBuf, stream.target`sent, stream.target`rest
    reads if h.Some? then {h.value, h.value.auth} else {}
  {
    && h.Some? && h.value.stream == stream && Unread(h.value.start) == all
    && h.value.state.Success? && h.value.state.socket.Udp?
    && h.value.Authenticated() && ScanRequest(h.value.req) == Parsed(Ok(h.value.state.socket), |h.value.req|)
    && ShortBacklog(h.value.start)
    && stream.target.sent == h.value.auth.before + h.value.auth.said + [5, 2, 0, 1, 0, 0, 0, 0, 0, 0]
  }

  /**
   Why there is no answer yet: the visitor's transport stood still as often as it was polled, or it
   takes a reply only in part.
   */
  ghost predicate MayWait(h: Option<Socks5>, polls: nat, turns: nat, waited: nat)
    reads if h.Some? then {h.value} else {}
  {
    waited >= polls || (h.Some? && h.value.state.Success? && (turns == 0 || h.value.resent))
  }

  /** Why it failed: the handshake ended so, or the transport did not take the refusal of UDP that follows it. */
  ghost predicate MayFail(h: Option<Socks5>, e: Error, turns: nat, waited: nat)
    reads if h.Some? then {h.value, h.value.readBuf, h.value.auth, h.value.stream} else {}
    reads if h.Some? && h.value.auth.rbuf != null then {h.value.auth.rbuf} else {}
    reads if h.Some? && h.value.stream.backedBuf != null then {h.value.stream.backedBuf} else {}
    reads if h.Some? && h.value.stream.markedBuf != null then {h.value.stream.markedBuf} else {}
    reads if h.Some? then {h.value.stream.target} else {}
  {
    && h.Some?
    && if FailedAs(h.value, e) then h.value.Blames(Ready(Err(e)), turns) ==> waited > 0
       else h.value.state.Success? && h.value.state.socket.Udp? && e in {Io, ConnectionReset} && waited > 0
  }

  /** The handshake read without room, after a segment in pieces, and was answered with zero. */
  ghost predicate Denied(h: Option<Socks5>)
    reads if h.Some? then {h.value} else {}
  {
    h.Some? && h.value.denied && h.value.pieces >= 2
  }

  /** Why a visitor that does not speak SOCKS5 is held up at a handshake. */
  ghost predicate HeldUp(a: Attempt, h: Option<Socks5>, polls: nat, waited: nat)
    reads if h.Some? then {h.value} else {}
  {
    match a
    case Waiting => waited >= polls
    case Failed(e) => (e == Io && waited > 0) || (e == ConnectionReset && Denied(h))
    case _ => false
  }

  /** The handshake asks for what the configuration says: a password alone goes with the name of the server. */
  ghost predicate Configured(h: Socks5, adapter: Adapter)
    requires adapter.SocksMock?
  {
    match adapter.password
    case None => !h.auth.standard
    case Some(p) =>
      && h.auth.standard && h.auth.password == p
      && h.auth.username == match adapter.username { case Some(u) => u case None => adapter.whoami }
  }

  /** The handshake `h` is the one of this adapter, made on the whole stream. */
  ghost predicate Called(h: Socks5, adapter: Adapter, stream: Fallback, all: Bytes, sent: Bytes) {
    && adapter.SocksMock? && adapter.enabled && Configured(h, adapter)
    && h.stream == stream && Unread(h.start) == all && h.auth.before == sent
  }

  /** What every attempt promises of how it ended; `sent` is what the visitor had been sent before. */
  ghost predicate Attempted(stream: Fallback, a: Attempt, polls: nat, turns: nat, all: Bytes, h: Option<Socks5>,
                            waited: nat, sent: Bytes)
    reads *
  {
    match a
    case Declined => true
    case Waiting => MayWait(h, polls, turns, waited)
    case Failed(e) => MayFail(h, e, turns, waited)
    case Taken(Socks(socket)) => socket.Tcp? && Handshaken(stream, all, h, socket)
    case Taken(Finished) => ToldNoUdp(stream, all, h)
    case Taken(peer) => peer == Direct && Ready4Next(stream, all, sent)
  }

  /** Which attempts must be declined: of an adapter that is switched off, and of a visitor that speaks something else. */
  ghost predicate MustDecline(adapter: Adapter, start: View, all: Bytes) {
    adapter.SocksMock? && (!adapter.enabled || (Foreign(all) && FreshStart(start)))
  }

  /** `finish_udp_forward`, driven for up to `polls` polls. Nothing is buffered, so it writes to the target. */
  method Refuse(stream: Fallback, polls: nat) returns (r: Option<Result<()>>)
    requires stream.backedBuf == null && stream.markedBuf == null
    modifies stream.target`sent, stream.target`stalls
    ensures stream.target.stalls >= old(stream.target.stalls)
    ensures r.Some? && r.value.Ok? ==> stream.target.sent == old(stream.target.sent) + [5, 2, 0, 1, 0, 0, 0, 0, 0, 0]
    ensures r.None? ==> stream.target.stalls >= old(stream.target.stalls) + polls
    ensures r.Some? && r.value.Err? ==>
              r.value.error in {Io, ConnectionReset} && stream.target.stalls > old(stream.target.stalls)
  {
    var future := new Ext.WriteAll(stream.target, UDP_REFUSAL);
    var i := 0;
    while i < polls
      invariant fresh(future) && future.Valid() && future.writer == stream.target
      invariant future.before == old(stream.target.sent) && future.buf == UDP_REFUSAL && i <= polls
      invariant stream.target.stalls == old(stream.target.stalls) + i
    {
      i := i + 1;
      var p := future.Poll();
      if p.Ready? {
        return Some(p.result);
      }
    }
    return None;
  }

  /** After the handshake: the route, or the refusal of UDP. */
  method Conclude(stream: Fallback, socket: Socket, polls: nat, ghost all: Bytes, ghost h: Option<Socks5>) returns (a: Attempt)
    requires Handshaken(stream, all, h, socket)
    modifies stream`backedBuf, stream`markedBuf, stream.target`sent, stream.target`stalls
    ensures stream.Unbuffers() && stream.target.stalls >= old(stream.target.stalls)
    ensures match a
            case Taken(Socks(s)) => s == socket && socket.Tcp? && Handshaken(stream, all, h, socket)
            case Taken(peer) => peer.Finished? && socket.Udp? && ToldNoUdp(stream, all, h)
            case Waiting => stream.target.stalls >= old(stream.target.stalls) + polls
            case Failed(e) =>
              && e in {Io, ConnectionReset} && stream.target.stalls > old(stream.target.stalls)
              && h.Some? && h.value.state == Success(socket) && socket.Udp?
            case Declined => false
  {
    hide Handshaken, ToldNoUdp, Unread;
    HandshakenFacts(stream, all, h, socket);
    stream.ConsumeBackData();
    match socket {
      case Tcp(_) =>
        return Taken(Socks(socket));
      case Udp(_) =>
        UdpIsSilent(stream, all, h, socket);
        var r := Refuse(stream, polls);
        match r {
          case None => return Waiting;
          case Some(Err(e)) => return Failed(e);
          case Some(Ok(_)) =>
            UdpIsTold(stream, all, h, socket);
            return Taken(Finished);
        }
    }
  }

  lemma UdpIsSilent(stream: Fallback, all: Bytes, h: Option<Socks5>, socket: Socket)
    requires Handshaken(stream, all, h, socket) && socket.Udp?
    ensures h.Some? && h.value.stream == stream && Unread(h.value.start) == all
    ensures h.value.state == Success(socket) && stream.target.sent == h.value.auth.before + h.value.auth.said
    ensures stream.backedBuf == null && stream.markedBuf == null
    ensures h.value.Authenticated() && ScanRequest(h.value.req) == Parsed(Ok(socket), |h.value.req|)
    ensures ShortBacklog(h.value.start)
  {
  }

  lemma UdpIsTold(stream: Fallback, all: Bytes, h: Option<Socks5>, socket: Socket)
    requires h.Some? && h.value.stream == stream && Unread(h.value.start) == all
    requires h.value.state == Success(socket) && socket.Udp?
    requires h.value.Authenticated() && ScanRequest(h.value.req) == Parsed(Ok(socket), |h.value.req|)
    requires ShortBacklog(h.value.start)
    requires stream.target.sent == h.value.auth.before + h.value.auth.said + [5, 2, 0, 1, 0, 0, 0, 0, 0, 0]
    ensures ToldNoUdp(stream, all, h)
  {
  }

  /** The call of one adapter, between the mark and the rewind. */
  method Call(stream: Fallback, adapter: Adapter, polls: nat, turns: nat, ghost all: Bytes)
    returns (a: Attempt, ghost h: Option<Socks5>)
    requires !stream.strict && Ready4Next(stream, all, stream.target.sent) && stream.markedBuf != null
    modifies stream`backedBuf, stream`markedBuf, stream.backedBuf, stream.markedBuf
    modifies stream.target`sent, stream.target`rest, stream.target`taken, stream.target`stalls
    ensures stream.target.stalls >= old(stream.target.stalls)
    ensures stream.Unbuffers()
    ensures Attempted(stream, a, polls, turns, all, h, stream.target.stalls - old(stream.target.stalls), old(stream.target.sent))
    ensures a.Declined? ==>
              && stream.Valid() && stream.target.sent == old(stream.target.sent)
              && var w := Rewound(stream.View());
              && Unread(w) == all && w.marked == None && ShortBacklog(w)
              && (adapter.SocksMock? && adapter.enabled ==> FreshStart(w))
    ensures adapter.DirectMock? ==> a == Taken(Direct) && stream.target.stalls == old(stream.target.stalls)
    ensures MustDecline(adapter, old(stream.View()), all) ==>
              a.Declined? || HeldUp(a, h, polls, stream.target.stalls - old(stream.target.stalls))
    ensures Denied(h) ==> a == Failed(ConnectionReset)
    ensures h.Some? <==> adapter.SocksMock? && adapter.enabled
    ensures h.Some? ==>
              Called(h.value, adapter, stream, all, old(stream.target.sent)) && h.value.start.backed == old(stream.View()).backed
    ensures a.Declined? && adapter.SocksMock? && adapter.enabled ==> Foreign(all)
    ensures a.Taken? ==> (a.peer.Direct? <==> adapter.DirectMock?) && !a.peer.Unknown?
  {
    hide Socks5.Streams, Socks5.Done, Socks5.Blames, FailedAs, Foreign, FreshStart, CanReadAll, AfterReads, Sum, Unread, Rewound;
    h := None;
    ghost var v := stream.View();
    assert Marked(v) == v;
    match adapter {
      case DirectMock =>
        return Taken(Direct), h;
      case SocksMock(false, _, _, _) =>
        SkipRestores(v);
        return Declined, h;
      case SocksMock(true, username, password, whoami) =>
        var c, hs := CallSocks(stream, GetAuth(username, password, whoami), polls, turns);
        h := Some(hs);
        match c {
          case None => return Waiting, h;
          case Some(Err(e)) => return Failed(e), h;
          case Some(Ok(Some(socket))) =>
            a := Conclude(stream, socket, polls, all, h);
            return a, h;
          case Some(Ok(None)) =>
            DeclineRestores(v, hs.sizes);
            FreshIsShort(Rewound(stream.View()));
            return Declined, h;
        }
    }
  }

  lemma FreshIsShort(v: View)
    requires FreshStart(v)
    ensures ShortBacklog(v)
  {
  }

  /** Mark, call, and rewind if the adapter declined. */
  method Try(stream: Fallback, adapter: Adapter, polls: nat, turns: nat, ghost all: Bytes)
    returns (a: Attempt, ghost h: Option<Socks5>)
    requires !stream.strict && Ready4Next(stream, all, stream.target.sent)
    modifies stream`backedBuf, stream`markedBuf, stream.backedBuf, stream.markedBuf
    modifies stream.target`sent, stream.target`rest, stream.target`taken, stream.target`stalls
    ensures stream.target.stalls >= old(stream.target.stalls)
    ensures stream.SameOrFresh()
    ensures Attempted(stream, a, polls, turns, all, h, stream.target.stalls - old(stream.target.stalls), old(stream.target.sent))
    ensures a.Declined? ==> Ready4Next(stream, all, old(stream.target.sent)) && stream.target.sent == old(stream.target.sent)
    ensures a.Declined? && adapter.SocksMock? && adapter.enabled ==> FreshStart(stream.View())
    ensures adapter.DirectMock? ==> a == Taken(Direct) && stream.target.stalls == old(stream.target.stalls)
    ensures MustDecline(adapter, old(stream.View()), all) ==>
              a.Declined? || HeldUp(a, h, polls, stream.target.stalls - old(stream.target.stalls))
    ensures Denied(h) ==> a == Failed(ConnectionReset)
    ensures h.Some? <==> adapter.SocksMock? && adapter.enabled
    ensures h.Some? ==>
              Called(h.value, adapter, stream, all, old(stream.target.sent)) && h.value.start.backed == old(stream.View()).backed
    ensures a.Declined? && adapter.SocksMock? && adapter.enabled ==> Foreign(all)
    ensures a.Taken? ==> (a.peer.Direct? <==> adapter.DirectMock?) && !a.peer.Unknown?
  {
    hide Handshaken, ToldNoUdp, Foreign, Unread, Rewound;
    MarkKeeps(stream.View());
    stream.Mark();
    a, h := Call(stream, adapter, polls, turns, all);
    if a.Declined? {
      stream.Backward();
    }
  }

  /** All handshakes are switched on, or all off: one setting of the server. */
  ghost predicate Uniform(adapters: seq<Adapter>, enabled: bool) {
    forall i :: 0 <= i < |adapters| && adapters[i].SocksMock? ==> adapters[i].enabled == enabled
  }

  /** A visitor that speaks something else, and a row of adapters that ends in a direct one. */
  ghost predicate GoesDirect(all: Bytes, adapters: seq<Adapter>, enabled: bool, start: View) {
    && Foreign(all) && DirectMock in adapters
    && Uniform(adapters, enabled) && (enabled ==> FreshStart(start))
  }

  /** The first adapter is a handshake that is switched on. */
  ghost predicate HandshakeFirst(adapters: seq<Adapter>) {
    |adapters| > 0 && adapters[0].SocksMock? && adapters[0].enabled
  }

  /** No adapter takes this visitor. */
  ghost predicate NobodyTakes(adapters: seq<Adapter>, all: Bytes) {
    && DirectMock !in adapters
    && forall i :: 0 <= i < |adapters| && adapters[i].SocksMock? && adapters[i].enabled ==> Foreign(all)
  }

  /**
   What the adapters came to; `start` and `sent` are from before. A visitor that no adapter takes, or
   that is taken by the direct one, keeps its whole stream; one that completes the handshake has been
   read exactly as far as the handshake goes. One that does not speak SOCKS5 gets to the direct adapter,
   whenever its bytes come, unless the transport fails or stands still at every poll, or the handshake
   is denied the end of a segment in pieces. One that may speak it is left to the handshake that comes first.
   */
  ghost predicate Selected(stream: Fallback, r: Option<Result<Peer>>, h: Option<Socks5>, adapters: seq<Adapter>, enabled: bool,
                           polls: nat, turns: nat, all: Bytes, start: View, sent: Bytes, waited: nat)
    reads *
  {
    && (match r
        case None => MayWait(h, polls, turns, waited)
        case Some(Err(e)) => MayFail(h, e, turns, waited)
        case Some(Ok(Socks(socket))) => socket.Tcp? && Handshaken(stream, all, h, socket)
        case Some(Ok(Finished)) => ToldNoUdp(stream, all, h)
        case Some(Ok(Direct)) => Ready4Next(stream, all, sent) && DirectMock in adapters
        case Some(Ok(Unknown)) => Ready4Next(stream, all, sent) && NobodyTakes(adapters, all))
    && (GoesDirect(all, adapters, enabled, start) ==>
          match r
          case None => waited >= polls
          case Some(Err(e)) => (e == Io && waited > 0) || (e == ConnectionReset && Denied(h))
          case Some(Ok(peer)) => peer == Direct)
    && (Denied(h) ==> r == Some(Err(ConnectionReset)))
    && (h.Some? ==> exists i :: 0 <= i < |adapters| && Called(h.value, adapters[i], stream, all, sent))
    && (HandshakeFirst(adapters) && !Foreign(all) ==>
          && h.Some? && Called(h.value, adapters[0], stream, all, sent) && h.value.start.backed == start.backed
          && (r.Some? && r.value.Ok? ==> r.value.value.Socks? || r.value.value.Finished?))
  }

  /** The adapters in turn. */
  method Select(stream: Fallback, adapters: seq<Adapter>, polls: nat, turns: nat, ghost all: Bytes, ghost enabled: bool)
    returns (r: Option<Result<Peer>>, ghost h: Option<Socks5>)
    requires !stream.strict && Ready4Next(stream, all, stream.target.sent)
    modifies stream`backedBuf, stream`markedBuf, stream.backedBuf, stream.markedBuf
    modifies stream.target`sent, stream.target`rest, stream.target`taken, stream.target`stalls
    ensures stream.target.stalls >= old(stream.target.stalls)
    ensures Selected(stream, r, h, adapters, enabled, polls, turns, all, old(stream.View()), old(stream.target.sent),
                     stream.target.stalls - old(stream.target.stalls))
    ensures stream.SameOrFresh()
  {
    hide Ready4Next, Handshaken, ToldNoUdp, FailedAs, Foreign, FreshStart;
    h := None;
    for i := 0 to |adapters|
      invariant Ready4Next(stream, all, old(stream.target.sent)) && stream.target.sent == old(stream.target.sent)
      invariant stream.SameOrFresh() && stream.target.stalls >= old(stream.target.stalls)
      invariant DirectMock !in adapters[..i] && !Denied(h)
      invariant forall j :: 0 <= j < i && adapters[j].SocksMock? && adapters[j].enabled ==> Foreign(all)
      invariant i == 0 ==> stream.View() == old(stream.View())
      invariant h.Some? ==>
          exists j :: 0 <= j < i && Called(h.value, adapters[j], stream, all, old(stream.target.sent))
      invariant GoesDirect(all, adapters, enabled, old(stream.View())) && enabled ==> FreshStart(stream.View())
    {
      var a;
      a, h := Try(stream, adapters[i], polls, turns, all);
      assert adapters[..i + 1] == adapters[..i] + [adapters[i]];
      match a {
        case Waiting => return None, h;
        case Failed(e) => return Some(Err(e)), h;
        case Taken(peer) => return Some(Ok(peer)), h;
        case Declined =>
      }
    }
    assert adapters[..|adapters|] == adapters;
    return Some(Ok(Unknown)), h;
  }

  /** Sends the replay buffer ahead to the target; the rest of the stream is then forwarded by the caller. */
  method HandOver(src: Fallback, dst: AsyncIo.Duplex, polls: nat) returns (r: Option<Result<()>>)
    requires src.Valid() && src.target != dst
    modifies src`backedBuf, src`markedBuf, src.backedBuf, src.markedBuf, dst`sent, dst`stalls
    ensures src.backedBuf == null && src.markedBuf == null
    ensures dst.stalls >= old(dst.stalls) && (r.None? ==> dst.stalls >= old(dst.stalls) + polls)
    ensures r.Some? && r.value.Err? ==> r.value.error in {Io, ConnectionReset} && dst.stalls > old(dst.stalls)
    ensures r.Some? && r.value.Ok? ==> dst.sent + src.target.rest == old(dst.sent) + Unread(Rewound(old(src.View())))
  {
    hide Rewound;
    src.Backward();
    ghost var w := src.View();
    var data := src.BackData();
    if data.None? {
      assert Unread(w) == w.rest;
      return Some(Ok(()));
    }
    var future := new Ext.WriteAll(dst, data.value);
    var i := 0;
    while i < polls
      invariant fresh(future) && future.Valid() && future.writer == dst && future.before == old(dst.sent)
      invariant future.buf == OrEmpty(w.backed) && src.backedBuf == null && src.markedBuf == null
      invariant i <= polls && dst.stalls == old(dst.stalls) + i
    {
      i := i + 1;
      var p := future.Poll();
      if p.Ready? {
        Assoc(future.before, future.buf, w.rest);
        return Some(p.result);
      }
    }
    return None;
  }

  /** What a visitor came to. */
  datatype Outcome = StillWaiting | Ended(error: Error) | Closed(told: bool) | Routed(peer: Peer)

  lemma HandshakenFacts(stream: Fallback, all: Bytes, h: Option<Socks5>, socket: Socket)
    requires Handshaken(stream, all, h, socket)
    ensures h.Some? && h.value.stream == stream && h.value.Streams() && h.value.Done(socket)
    ensures Unread(h.value.start) == all && stream.backedBuf == null && stream.markedBuf == null
    ensures Unread(Rewound(stream.View())) == stream.target.rest
  {
  }

  /** After a handshake nothing is replayed. */
  method RouteSocks(src: Fallback, dst: AsyncIo.Duplex, polls: nat, ghost h: Option<Socks5>, ghost all: Bytes, ghost socket: Socket)
    returns (r: Option<Result<()>>)
    requires Handshaken(src, all, h, socket) && src.target != dst
    modifies src`backedBuf, src`markedBuf, dst`sent, dst`stalls
    ensures dst.stalls >= old(dst.stalls) && (r.None? ==> dst.stalls >= old(dst.stalls) + polls)
    ensures r.Some? && r.value.Err? ==> r.value.error in {Io, ConnectionReset} && dst.stalls > old(dst.stalls)
    ensures r.Some? && r.value.Ok? ==>
              && h.Some? && h.value.stream == src && h.value.Streams() && h.value.Done(socket)
              && Unread(h.value.start) == all && dst.sent == old(dst.sent)
  {
    hide Handshaken, Socks5.Streams, Socks5.Done, Unread, Rewound;
    HandshakenFacts(src, all, h, socket);
    NothingBuffered(src);
    r := HandOver(src, dst, polls);
    if r.Some? && r.value.Ok? {
      SameFront(dst.sent, old(dst.sent), src.target.rest);
    }
  }

  lemma NothingBuffered(src: Fallback)
    requires src.backedBuf == null && src.markedBuf == null
    ensures src.Valid()
  {
  }

  lemma SameFront(a: Bytes, b: Bytes, rest: Bytes)
    requires a + rest == b + rest
    ensures a == b
  {
    assert |a| == |b|;
    assert a == (a + rest)[..|a|] && b == (b + rest)[..|b|];
  }

  lemma RewindKeepsAll(v: View)
    requires OrEmpty(v.marked) == []
    ensures Unread(Rewound(v)) == Unread(v)
  {
  }

  /** The name and the password that the configuration asks for, if it does. */
  ghost predicate Right(adapter: Adapter, c: Client)
    requires adapter.SocksMock?
  {
    match adapter.password
    case None => true
    case Some(p) => c.pass == p && c.user == match adapter.username { case Some(u) => u case None => adapter.whoami }
  }

  /** Who gets past this adapter has sent the name and the password that the configuration asks for, if it does. */
  ghost predicate Admits(adapter: Adapter, all: Bytes) {
    && adapter.SocksMock? && adapter.enabled
    && match adapter.password
       case None => true
       case Some(p) => LoggedIn(all, match adapter.username { case Some(u) => u case None => adapter.whoami }, p)
  }

  lemma AdmittedBy(h: Socks5, adapter: Adapter, stream: Fallback, all: Bytes, sent: Bytes)
    requires Called(h, adapter, stream, all, sent) && h.Authenticated() && ShortBacklog(h.start)
    ensures Admits(adapter, all)
  {
    hide LoggedIn, Unread;
    if adapter.password.Some? {
      PassedIsLoggedIn(h);
    }
  }

  /** A client that was answered got what it asked for, with the right credentials, and was told so. */
  lemma ServedClient(h: Socks5, socket: Socket, adapter: Adapter, c: Client, stream: Fallback, all: Bytes, sent: Bytes)
    requires Called(h, adapter, stream, all, sent) && FreshStart(h.start) && Speaks(all, c, adapter.password.Some?)
    requires h.Authenticated() && ScanRequest(h.req) == Parsed(Ok(socket), |h.req|)
    ensures socket == Wanted(c) && h.stream.target.rest == c.tail && Right(adapter, c)
    ensures |h.req| >= 4 && h.req[2] == c.rsv && (c.cmd == 1 || c.cmd == 3)
    ensures h.auth.said == if adapter.password.Some? then [5, 2, 1, 0] else [5, 0]
  {
    hide Speaks, Asks, Unread, ScanRequest;
    SpeaksAsks(h, c);
    AuthenticatedAsks(h, c.methods, c.user, c.pass, c.cmd, c.rsv, c.target, c.tail);
    AsksProperly(h, c.methods, c.user, c.pass, c.cmd, c.rsv, c.target, c.tail);
    SameRequest(h.req, h.stream.target.rest, c.cmd, c.rsv, c.target, c.tail, socket);
  }

  /** A client with the right credentials fails only with the transport, or because a read was denied. */
  lemma FailedClient(h: Socks5, e: Error, adapter: Adapter, c: Client, stream: Fallback, all: Bytes, sent: Bytes, turns: nat)
    requires Called(h, adapter, stream, all, sent) && FreshStart(h.start) && Speaks(all, c, adapter.password.Some?)
    requires FailedAs(h, e) && Right(adapter, c)
    ensures h.Blames(Ready(Err(e)), turns) || (e == ConnectionReset && h.denied && h.pieces >= 2)
  {
    hide Speaks, Asks, Unread, Socks5.MatchFailed, Socks5.Starved, Socks5.Valid;
    SpeaksAsks(h, c);
    EntitledIsServed(h, Err(e), c.methods, c.user, c.pass, c.cmd, c.rsv, c.target, c.tail);
  }

  /** What a client of the handshake of this adapter comes to; `sent` is what the visitor had been sent before. */
  ghost predicate Due(r: Outcome, h: Option<Socks5>, adapter: Adapter, c: Client, visitor: AsyncIo.Duplex, sent: Bytes,
                      polls: nat, turns: nat, waited: nat, waitedFor: nat)
    requires adapter.SocksMock?
    reads visitor, if h.Some? then {h.value} else {}
  {
    var said := sent + if adapter.password.Some? then [5, 2, 1, 0] else [5, 0];
    match r
    case Routed(peer) =>
      && Right(adapter, c) && c.cmd == 1 && peer == Socks(Wanted(c)) && visitor.rest == c.tail
      && h.Some? && (!h.value.resent ==> visitor.sent == said + [5, 0, c.rsv, 1, 0, 0, 0, 0, 0, 0])
    case Closed(told) =>
      && Right(adapter, c) && c.cmd == 3 && told && visitor.rest == c.tail
      && visitor.sent == said + [5, 2, 0, 1, 0, 0, 0, 0, 0, 0]
    case StillWaiting => MayWait(h, polls, turns, waited) || waitedFor >= polls
    case Ended(e) => !Right(adapter, c) || waited > 0 || waitedFor > 0 || (e == ConnectionReset && Denied(h))
  }

  /** Where a handshake comes first, every visitor that speaks it gets its due. */
  ghost predicate AllDue(r: Outcome, h: Option<Socks5>, adapters: seq<Adapter>, all: Bytes, visitor: AsyncIo.Duplex, sent: Bytes,
                         polls: nat, turns: nat, waited: nat, waitedFor: nat)
    reads visitor, if h.Some? then {h.value} else {}
  {
    HandshakeFirst(adapters) ==>
      forall c: Client | Speaks(all, c, adapters[0].password.Some?) ::
        Due(r, h, adapters[0], c, visitor, sent, polls, turns, waited, waitedFor)
  }

  /** A visitor that must be routed directly is, or a transport or a denied read is in the way. */
  ghost predicate DirectDue(r: Outcome, h: Option<Socks5>, polls: nat, waited: nat, waitedFor: nat)
    reads if h.Some? then {h.value} else {}
  {
    match r
    case Routed(peer) => peer == Direct
    case Closed(_) => false
    case StillWaiting => waited >= polls || waitedFor >= polls
    case Ended(e) =>
      || (e == Io && waited > 0)
      || (e == ConnectionReset && Denied(h))
      || (e in {Io, ConnectionReset} && waitedFor > 0)
  }

  /** Some adapter lets this visitor past its handshake. */
  ghost predicate SomeAdmits(adapters: seq<Adapter>, all: Bytes) {
    exists i :: 0 <= i < |adapters| && Admits(adapters[i], all)
  }

  lemma SpeakersAreNotForeign(all: Bytes, c: Client, login: bool)
    requires Speaks(all, c, login)
    ensures !Foreign(all)
  {
    assert all[0] == 5;
  }

  lemma ForeignersDoNotSpeak(all: Bytes, login: bool)
    ensures Foreign(all) ==> forall c: Client :: !Speaks(all, c, login)
  {
    forall c: Client | Speaks(all, c, login) ensures !Foreign(all) {
      SpeakersAreNotForeign(all, c, login);
    }
  }

  /** What `Select` says of the handshake of the first adapter. */
  ghost predicate FirstCalled(h: Option<Socks5>, adapters: seq<Adapter>, stream: Fallback, all: Bytes, sent: Bytes) {
    HandshakeFirst(adapters) && h.Some? && Called(h.value, adapters[0], stream, all, sent) && FreshStart(h.value.start)
  }

  /** Unless the visitor speaks something else, or no handshake comes first. */
  ghost predicate MayBeDue(h: Option<Socks5>, adapters: seq<Adapter>, stream: Fallback, all: Bytes, sent: Bytes) {
    HandshakeFirst(adapters) && !Foreign(all) ==> FirstCalled(h, adapters, stream, all, sent)
  }

  lemma DueIfFailed(h: Option<Socks5>, e: Error, adapters: seq<Adapter>, stream: Fallback, all: Bytes, sent: Bytes,
                    polls: nat, turns: nat, waited: nat, waitedFor: nat)
    requires MayBeDue(h, adapters, stream, all, sent)
    requires MayFail(h, e, turns, waited)
    ensures AllDue(Ended(e), h, adapters, all, stream.target, sent, polls, turns, waited, waitedFor)
  {
    hide Speaks, FailedAs, Called, FreshStart, Socks5.Blames;
    if HandshakeFirst(adapters) {
      forall c: Client | Speaks(all, c, adapters[0].password.Some?)
        ensures Due(Ended(e), h, adapters[0], c, stream.target, sent, polls, turns, waited, waitedFor)
      {
        SpeakersAreNotForeign(all, c, adapters[0].password.Some?);
        if FailedAs(h.value, e) && Right(adapters[0], c) {
          FailedClient(h.value, e, adapters[0], c, stream, all, sent, turns);
        }
      }
    }
  }

  lemma DueIfServed(h: Option<Socks5>, socket: Socket, adapters: seq<Adapter>, stream: Fallback, all: Bytes, sent: Bytes,
                    polls: nat, turns: nat, waited: nat, waitedFor: nat)
    requires MayBeDue(h, adapters, stream, all, sent)
    requires h.Some? && h.value.Done(socket) && socket.Tcp?
    ensures AllDue(Routed(Socks(socket)), h, adapters, all, stream.target, sent, polls, turns, waited, waitedFor)
  {
    hide Speaks, FreshStart, ScanRequest, Socks5.Authenticated;
    if HandshakeFirst(adapters) {
      forall c: Client | Speaks(all, c, adapters[0].password.Some?)
        ensures Due(Routed(Socks(socket)), h, adapters[0], c, stream.target, sent, polls, turns, waited, waitedFor)
      {
        SpeakersAreNotForeign(all, c, adapters[0].password.Some?);
        ServedClient(h.value, socket, adapters[0], c, stream, all, sent);
      }
    }
  }

  lemma DueIfTold(h: Option<Socks5>, adapters: seq<Adapter>, stream: Fallback, all: Bytes, sent: Bytes,
                  polls: nat, turns: nat, waited: nat, waitedFor: nat)
    requires MayBeDue(h, adapters, stream, all, sent)
    requires ToldNoUdp(stream, all, h)
    ensures AllDue(Closed(true), h, adapters, all, stream.target, sent, polls, turns, waited, waitedFor)
  {
    hide Speaks, FreshStart, ScanRequest, Socks5.Authenticated;
    if HandshakeFirst(adapters) {
      forall c: Client | Speaks(all, c, adapters[0].password.Some?)
        ensures Due(Closed(true), h, adapters[0], c, stream.target, sent, polls, turns, waited, waitedFor)
      {
        SpeakersAreNotForeign(all, c, adapters[0].password.Some?);
        ServedClient(h.value, h.value.state.socket, adapters[0], c, stream, all, sent);
      }
    }
  }

  lemma DueOtherwise(r: Outcome, h: Option<Socks5>, adapters: seq<Adapter>, stream: Fallback, all: Bytes, sent: Bytes,
                     polls: nat, turns: nat, waited: nat, waitedFor: nat)
    requires MayBeDue(h, adapters, stream, all, sent)
    requires || (r == StillWaiting && (MayWait(h, polls, turns, waited) || waitedFor >= polls))
             || (r.Ended? && waitedFor > 0)
    ensures AllDue(r, h, adapters, all, stream.target, sent, polls, turns, waited, waitedFor)
  {
    if HandshakeFirst(adapters) {
      ForeignersDoNotSpeak(all, adapters[0].password.Some?);
    }
  }

  lemma FirstIsCalled(h: Option<Socks5>, adapters: seq<Adapter>, stream: Fallback, all: Bytes, sent: Bytes)
    requires HandshakeFirst(adapters) && !Foreign(all) ==>
               h.Some? && Called(h.value, adapters[0], stream, all, sent) && h.value.start.backed == None
    ensures MayBeDue(h, adapters, stream, all, sent)
  {
  }

  lemma NothingDue(r: Outcome, h: Option<Socks5>, adapters: seq<Adapter>, all: Bytes, visitor: AsyncIo.Duplex, sent: Bytes,
                   polls: nat, turns: nat, waited: nat, waitedFor: nat)
    requires HandshakeFirst(adapters) ==> Foreign(all)
    ensures AllDue(r, h, adapters, all, visitor, sent, polls, turns, waited, waitedFor)
  {
    if HandshakeFirst(adapters) {
      ForeignersDoNotSpeak(all, adapters[0].password.Some?);
    }
  }

  /** Whoever was answered by a handshake was admitted by its adapter. */
  lemma AnsweredIsAdmitted(h: Socks5, adapters: seq<Adapter>, stream: Fallback, all: Bytes, sent: Bytes)
    requires exists i :: 0 <= i < |adapters| && Called(h, adapters[i], stream, all, sent)
    requires h.Authenticated() && ShortBacklog(h.start)
    ensures SomeAdmits(adapters, all)
  {
    hide Called, Admits, ShortBacklog;
    var i :| 0 <= i < |adapters| && Called(h, adapters[i], stream, all, sent);
    AdmittedBy(h, adapters[i], stream, all, sent);
  }

  /** What of the visitor is where, and what each outcome is accounted for by. */
  ghost predicate Settled(r: Outcome, h: Option<Socks5>, all: Bytes, visitor: AsyncIo.Duplex, sent: Bytes,
                          untouched: bool, polls: nat, turns: nat, waited: nat, waitedFor: nat)
    reads *
  {
    match r
    case Routed(Socks(socket)) =>
      && socket.Tcp? && h.Some? && h.value.stream.target == visitor && h.value.Streams() && h.value.Done(socket)
      && Unread(h.value.start) == all && untouched
    case Closed(told) =>
      && untouched
      && (if told then h.Some? && h.value.stream.target == visitor && ToldNoUdp(h.value.stream, all, h)
          else visitor.sent == sent)
    case Routed(peer) => peer == Direct
    case StillWaiting => MayWait(h, polls, turns, waited) || waitedFor >= polls
    case Ended(e) => MayFail(h, e, turns, waited) || (e in {Io, ConnectionReset} && waitedFor > 0)
  }

  /** From what the adapters came to, to the route. */
  method Finish(src: Fallback, dst: AsyncIo.Duplex, peer: Option<Result<Peer>>, polls: nat, ghost turns: nat,
                ghost h: Option<Socks5>, ghost adapters: seq<Adapter>, ghost enabled: bool,
                ghost all: Bytes, ghost start: View, ghost sent: Bytes, ghost waited: nat)
    returns (r: Outcome)
    requires Selected(src, peer, h, adapters, enabled, polls, turns, all, start, sent, waited)
    requires src.target != dst && start.backed == None
    modifies src`backedBuf, src`markedBuf, src.backedBuf, src.markedBuf, dst`sent, dst`stalls
    ensures dst.stalls >= old(dst.stalls)
    ensures r == Routed(Direct) ==> dst.sent + src.target.rest == old(dst.sent) + all && src.target.sent == sent
    ensures GoesDirect(all, adapters, enabled, start) ==> DirectDue(r, h, polls, waited, dst.stalls - old(dst.stalls))
    ensures Denied(h) ==> r == Ended(ConnectionReset)
    ensures AllDue(r, h, adapters, all, src.target, sent, polls, turns, waited, dst.stalls - old(dst.stalls))
    ensures (r.Routed? && r.peer.Socks?) || r == Closed(true) ==> SomeAdmits(adapters, all)
    ensures r == Closed(false) ==> NobodyTakes(adapters, all)
    ensures Settled(r, h, all, src.target, sent, dst.sent == old(dst.sent), polls, turns, waited, dst.stalls - old(dst.stalls))
  {
    hide Handshaken, ToldNoUdp, FailedAs, MayWait, MayFail, GoesDirect, Denied, Socks5.Streams, Socks5.Done, Rewound;
    hide AllDue, SomeAdmits, NobodyTakes, MayBeDue, Called, FreshStart, Foreign;
    FirstIsCalled(h, adapters, src, all, sent);
    match peer {
      case None =>
        DueOtherwise(StillWaiting, h, adapters, src, all, sent, polls, turns, waited, 0);
        return StillWaiting;
      case Some(Err(e)) =>
        DueIfFailed(h, e, adapters, src, all, sent, polls, turns, waited, 0);
        return Ended(e);
      case Some(Ok(Unknown)) =>
        NothingDue(Closed(false), h, adapters, all, src.target, sent, polls, turns, waited, 0);
        return Closed(false);
      case Some(Ok(Finished)) =>
        ToldHere(src, all, h);
        AnsweredIsAdmitted(h.value, adapters, src, all, sent);
        DueIfTold(h, adapters, src, all, sent, polls, turns, waited, 0);
        return Closed(true);
      case Some(Ok(Direct)) =>
        RewindKeepsAll(src.View());
        var o := HandOver(src, dst, polls);
        r := OutcomeOf(o, Direct);
        NothingDue(r, h, adapters, all, src.target, sent, polls, turns, waited, dst.stalls - old(dst.stalls));
      case Some(Ok(Socks(socket))) =>
        HandshakenHere(src, all, h, socket);
        AnsweredIsAdmitted(h.value, adapters, src, all, sent);
        var o := RouteSocks(src, dst, polls, h, all, socket);
        r := OutcomeOf(o, Socks(socket));
        if r.Routed? {
          DueIfServed(h, socket, adapters, src, all, sent, polls, turns, waited, dst.stalls - old(dst.stalls));
        } else {
          DueOtherwise(r, h, adapters, src, all, sent, polls, turns, waited, dst.stalls - old(dst.stalls));
        }
    }
  }

  /**
   A visitor from its arrival to its route. All its bytes reach the target when it is routed directly;
   after a handshake the target gets exactly what follows the handshake. A visitor that does not speak
   SOCKS5 is routed directly, whenever its bytes come, unless a transport fails or stands still at every
   poll, or the handshake is denied the end of a segment in pieces. Where a handshake comes first, a
   visitor that does speak it is served or refused by what it asks for and by the configured
   credentials (`Due`), and nobody gets past a handshake without those.
   */
  method Serve(visitor: AsyncIo.Duplex, adapters: seq<Adapter>, dst: AsyncIo.Duplex, polls: nat, turns: nat, ghost enabled: bool)
    returns (r: Outcome, ghost h: Option<Socks5>)
    requires visitor != dst
    modifies visitor`sent, visitor`rest, visitor`taken, dst`sent, visitor`stalls, dst`stalls
    ensures visitor.stalls >= old(visitor.stalls) && dst.stalls >= old(dst.stalls)
    ensures r == Routed(Direct) ==>
              dst.sent + visitor.rest == old(dst.sent) + old(visitor.rest) && visitor.sent == old(visitor.sent)
    ensures GoesDirect(old(visitor.rest), adapters, enabled, View(None, None, [])) ==>
              DirectDue(r, h, polls, visitor.stalls - old(visitor.stalls), dst.stalls - old(dst.stalls))
    ensures Denied(h) ==> r == Ended(ConnectionReset)
    ensures AllDue(r, h, adapters, old(visitor.rest), visitor, old(visitor.sent), polls, turns,
                   visitor.stalls - old(visitor.stalls), dst.stalls - old(dst.stalls))
    ensures (r.Routed? && r.peer.Socks?) || r == Closed(true) ==> SomeAdmits(adapters, old(visitor.rest))
    ensures r == Closed(false) ==> NobodyTakes(adapters, old(visitor.rest))
    ensures Settled(r, h, old(visitor.rest), visitor, old(visitor.sent), dst.sent == old(dst.sent), polls, turns,
                    visitor.stalls - old(visitor.stalls), dst.stalls - old(dst.stalls))
  {
    hide Selected, Settled, GoesDirect, DirectDue, AllDue, SomeAdmits, NobodyTakes, Denied;
    var src := new Fallback(visitor, false);
    src.Mark();
    ghost var all, start := visitor.rest, src.View();
    assert Ready4Next(src, all, visitor.sent);
    StartsFresh(start, View(None, None, []), all, adapters, enabled);
    var peer;
    peer, h := Select(src, adapters, polls, turns, all, enabled);
    ghost var waited := visitor.stalls - old(visitor.stalls);
    r := Finish(src, dst, peer, polls, turns, h, adapters, enabled, all, start, old(visitor.sent), waited);
  }

  function OutcomeOf(o: Option<Result<()>>, peer: Peer): Outcome {
    match o
    case None => StillWaiting
    case Some(Err(e)) => Ended(e)
    case Some(Ok(_)) => Routed(peer)
  }

  lemma HandshakenHere(stream: Fallback, all: Bytes, h: Option<Socks5>, socket: Socket)
    requires Handshaken(stream, all, h, socket)
    ensures h.Some? && h.value.Authenticated() && ShortBacklog(h.value.start)
  {
  }

  lemma StartsFresh(v: View, w: View, all: Bytes, adapters: seq<Adapter>, enabled: bool)
    requires v.backed == w.backed
    ensures GoesDirect(all, adapters, enabled, v) <==> GoesDirect(all, adapters, enabled, w)
  {
  }

  lemma ToldHere(stream: Fallback, all: Bytes, h: Option<Socks5>)
    requires ToldNoUdp(stream, all, h)
    ensures h.Some? && h.value.stream == stream && h.value.Authenticated() && ShortBacklog(h.value.start)
  {
  }
}
