/** What a completed SOCKS5 handshake says about the bytes that the client sent. */
module Handshake {
  import opened Common
  import opened FallbackSpec
  import AuthSpec
  import opened Auth
  import opened SocksAddr
  import opened SocksRequest
  import opened Socks

  /** Version, methods, and the credentials if there are any, as a client sends them. */
  function Opening(methods: Bytes, credentials: Option<(Bytes, Bytes)>): Bytes
    requires |methods| < 256
    requires credentials.Some? ==> |credentials.value.0| < 256 && |credentials.value.1| < 256
  {
    [5, |methods|] + methods +
    if credentials.Some? then AuthSpec.Request(credentials.value.0, credentials.value.1) else []
  }

  lemma SplitAt(a: Bytes, b: Bytes, c: Bytes, d: Bytes)
    requires a + b == c + d && |a| == |c|
    ensures a == c && b == d
  {
    assert a == (a + b)[..|a|] && b == (a + b)[|a|..];
    assert c == (c + d)[..|c|] && d == (c + d)[|c|..];
  }

  /** The greeting that was read is the one that was sent. */
  lemma SameGreeting(head: Bytes, behind: Bytes, methods: Bytes, tail: Bytes)
    requires |methods| < 256 && |head| >= 2 && head[0] == 5 && |head| == 2 + head[1] as int
    requires head + behind == [5, |methods|] + methods + tail
    ensures head == [5, |methods|] + methods && behind == tail
  {
    assert head[1] == (head + behind)[1] == ([5, |methods|] + methods + tail)[1] == |methods|;
    SplitAt(head, behind, [5, |methods|] + methods, tail);
  }

  /** The request that was read is the one that was sent. */
  lemma SameRequest(req: Bytes, rest: Bytes, cmd: byte, rsv: byte, a: Addr, tail: Bytes, socket: Socket)
    requires WellFormed(a) && (a.Domain? ==> |a.name| <= 253)
    requires ScanRequest(req) == Parsed(Ok(socket), |req|)
    requires req + rest == RequestBytes(cmd, rsv, a) + tail
    ensures Answer(cmd, a) == Ok(socket) && req == RequestBytes(cmd, rsv, a) && rest == tail
  {
    ScanRequestStable(req, rest);
    ProperRequest(cmd, rsv, a, tail);
    SplitAt(req, rest, RequestBytes(cmd, rsv, a), tail);
  }

  lemma DoneFacts(h: Socks5, socket: Socket)
    requires h.Streams() && h.Done(socket)
    ensures h.HeadWhole() && h.auth.Passed() && ScanRequest(h.req) == Parsed(Ok(socket), |h.req|)
    ensures h.auth.got + (h.req + h.stream.target.rest) == h.behind
    ensures |OrEmpty(h.start.backed)| <= |h.head| ==> Unread(h.start) == h.head + h.behind
  {
    Assoc(h.auth.got, h.req, h.stream.target.rest);
  }

  /** The credentials that were read are the ones that were sent, and the right ones. */
  lemma SameCredentials(h: S5Authenticate, more: Bytes, u: Bytes, p: Bytes, tail: Bytes)
    requires h.Passed() && |u| < 256 && 0 < |p| < 256
    requires h.got + more == (if h.standard then AuthSpec.Request(u, p) else []) + tail
    ensures more == tail && (h.standard ==> u == h.username && p == h.password)
  {
    if h.standard {
      AuthSpec.AcceptedIff(h.got, more, u, p, tail, h.username, h.password);
    } else {
      assert h.got + more == more && [] + tail == tail;
    }
  }

  /**
   A client that opens and then asks for `a` is understood: if the handshake succeeds, in whatever
   pieces its bytes came, then its credentials were right, the socket is the one it asked for, and
   exactly what it sent after the request is still to be read.
   */
  lemma HandshakeIsTheRequest(h: Socks5, socket: Socket, methods: Bytes, u: Bytes, p: Bytes,
                              cmd: byte, rsv: byte, a: Addr, tail: Bytes)
    requires h.Streams() && h.Done(socket) && |OrEmpty(h.start.backed)| <= |h.head|
    requires |methods| < 256 && |u| < 256 && 0 < |p| < 256
    requires WellFormed(a) && (a.Domain? ==> |a.name| <= 253)
    requires Unread(h.start) ==
               Opening(methods, if h.auth.standard then Some((u, p)) else None) + (RequestBytes(cmd, rsv, a) + tail)
    ensures Answer(cmd, a) == Ok(socket) && h.stream.target.rest == tail
    ensures h.auth.standard ==> u == h.auth.username && p == h.auth.password
  {
    hide Socks5.Streams, Socks5.Done, S5Authenticate.Passed, RequestBytes, AuthSpec.Request, ScanRequest, Unread;
    DoneFacts(h, socket);
    var asked := RequestBytes(cmd, rsv, a);
    var auth := if h.auth.standard then AuthSpec.Request(u, p) else [];
    assert Unread(h.start) == [5, |methods|] + methods + (auth + (asked + tail));
    SameGreeting(h.head, h.behind, methods, auth + (asked + tail));
    SameCredentials(h.auth, h.req + h.stream.target.rest, u, p, asked + tail);
    SameRequest(h.req, h.stream.target.rest, cmd, rsv, a, tail, socket);
  }

  // ---- How a handshake can end ----

  /** Not the beginning of SOCKS5. */
  predicate Foreign(all: Bytes) {
    |all| >= 2 && all[0] != 5
  }

  /** No more is replayed than the two bytes a declined handshake has read, and not nothing. */
  ghost predicate FreshStart(v: View) {
    |OrEmpty(v.backed)| <= 2 && v.backed != Some([])
  }

  lemma BegunWithFive(h: Socks5)
    requires h.HeadWhole() && h.BehindHead() && |OrEmpty(h.start.backed)| <= 2
    ensures |Unread(h.start)| >= 2 && Unread(h.start)[0] == 5
  {
    assert Unread(h.start)[0] == h.head[0];
  }

  /** While it waits it has not answered a visitor that does not speak SOCKS5. */
  lemma ForeignWaits(h: Socks5)
    requires h.Valid() && Foreign(Unread(h.start)) && FreshStart(h.start)
    ensures !h.state.Success?
  {
    if h.state.Success? {
      h.StageOf();
      BegunWithFive(h);
    }
  }

  /**
   A visitor that does not speak SOCKS5 is declined, unless the transport fails, or its first bytes come in
   pieces and the read without room behind them is answered with zero.
   */
  lemma ForeignIsDeclined(h: Socks5, r: Result<Socket>)
    requires h.Ended(Ready(r)) && Foreign(Unread(h.start)) && FreshStart(h.start)
    ensures r.Err? && (r.error.SocksHead? || r.error == Io || r.error == ConnectionReset)
    ensures r.error == ConnectionReset <==> h.denied
    ensures h.denied ==> h.pieces >= 2
  {
    hide Socks5.Streams, Socks5.Untouched, Unread, S5Authenticate.Passed, ScanRequest;
    if h.HeadWhole() && h.BehindHead() {
      BegunWithFive(h);
    }
    if r.Err? && h.Starved() && h.InGreeting() {
      GreetingStarvesEarly(h);
    }
  }

  /** A greeting that is the whole stream and not complete has one byte at most, or begins with 5. */
  lemma GreetingStarvesEarly(h: Socks5)
    requires h.InGreeting() && h.readOffset < h.readBuf.Length && h.head == Unread(h.start)
    ensures |Unread(h.start)| < 2 || (Unread(h.start)[0] == 5 && |Unread(h.start)| < 2 + Unread(h.start)[1] as int)
  {
  }

  /** What a client with these credentials sends: opening, request, and whatever it likes. */
  ghost predicate Asks(h: Socks5, methods: Bytes, u: Bytes, p: Bytes, cmd: byte, rsv: byte, a: Addr, tail: Bytes) {
    && |methods| < 256 && |u| < 256 && 0 < |p| < 256
    && WellFormed(a) && (a.Domain? ==> |a.name| <= 253) && Answer(cmd, a).Ok?
    && Unread(h.start) ==
         Opening(methods, if h.auth.standard then Some((u, p)) else None) + (RequestBytes(cmd, rsv, a) + tail)
  }

  /** The name and the password that the server expects, if it expects any. */
  ghost predicate Entitled(h: Socks5, u: Bytes, p: Bytes) {
    h.auth.standard ==> u == h.auth.username && p == h.auth.password
  }

  /** Behind the greeting of such a client come its credentials and its request. */
  lemma BehindAsks(h: Socks5, methods: Bytes, u: Bytes, p: Bytes, cmd: byte, rsv: byte, a: Addr, tail: Bytes)
    requires Asks(h, methods, u, p, cmd, rsv, a, tail) && FreshStart(h.start)
    requires h.HeadWhole() && h.BehindHead()
    ensures h.behind == (if h.auth.standard then AuthSpec.Request(u, p) else []) + (RequestBytes(cmd, rsv, a) + tail)
  {
    hide RequestBytes, AuthSpec.Request, Unread;
    var auth := if h.auth.standard then AuthSpec.Request(u, p) else [];
    assert Unread(h.start) == [5, |methods|] + methods + (auth + (RequestBytes(cmd, rsv, a) + tail));
    SameGreeting(h.head, h.behind, methods, auth + (RequestBytes(cmd, rsv, a) + tail));
  }

  /** The right credentials are never refused. */
  lemma EntitledPasses(auth: S5Authenticate, rest: Bytes, u: Bytes, p: Bytes, tail: Bytes, e: Error)
    requires |u| < 256 && 0 < |p| < 256 && u == auth.username && p == auth.password
    requires auth.got + rest == AuthSpec.Request(u, p) + tail && rest == auth.stream.target.rest
    requires auth.standard && auth.Explained(e)
    ensures e == Io || (e == UnexpectedEof && auth.wbuf.Some?)
  {
    AuthSpec.UndecidedHasMore(auth.got, rest, u, p, tail, auth.username, auth.password);
    AuthSpec.JudgeRequest(u, p, tail, auth.username, auth.password);
    if !AuthSpec.Judge(auth.got, auth.username, auth.password).NeedMore? {
      AuthSpec.JudgeStable(auth.got, rest, auth.username, auth.password);
    }
  }

  /** Nor is a proper request. */
  lemma RequestPasses(req: Bytes, rest: Bytes, cmd: byte, rsv: byte, a: Addr, tail: Bytes)
    requires WellFormed(a) && (a.Domain? ==> |a.name| <= 253) && Answer(cmd, a).Ok?
    requires req + rest == RequestBytes(cmd, rsv, a) + tail
    ensures match ScanRequest(req)
            case More => rest != []
            case Parsed(result, _) => result == Answer(cmd, a)
  {
    ProperRequest(cmd, rsv, a, tail);
    if ScanRequest(req).More? {
      assert req + [] == req;
    } else {
      ScanRequestStable(req, rest);
    }
  }

  lemma AuthenticatedAsks(h: Socks5, methods: Bytes, u: Bytes, p: Bytes, cmd: byte, rsv: byte, a: Addr, tail: Bytes)
    requires Asks(h, methods, u, p, cmd, rsv, a, tail) && FreshStart(h.start) && h.Authenticated()
    ensures h.req + h.stream.target.rest == RequestBytes(cmd, rsv, a) + tail
    ensures Entitled(h, u, p)
  {
    hide RequestBytes, AuthSpec.Request, S5Authenticate.Passed, Asks;
    BehindAsks(h, methods, u, p, cmd, rsv, a, tail);
    Assoc(h.auth.got, h.req, h.stream.target.rest);
    PassedAsks(h, methods, u, p, cmd, rsv, a, tail);
  }

  lemma PassedAsks(h: Socks5, methods: Bytes, u: Bytes, p: Bytes, cmd: byte, rsv: byte, a: Addr, tail: Bytes)
    requires Asks(h, methods, u, p, cmd, rsv, a, tail) && h.auth.Passed()
    requires h.auth.got + (h.req + h.stream.target.rest) ==
               (if h.auth.standard then AuthSpec.Request(u, p) else []) + (RequestBytes(cmd, rsv, a) + tail)
    ensures h.req + h.stream.target.rest == RequestBytes(cmd, rsv, a) + tail && Entitled(h, u, p)
  {
    hide RequestBytes, AuthSpec.Request, S5Authenticate.Passed;
    SameCredentials(h.auth, h.req + h.stream.target.rest, u, p, RequestBytes(cmd, rsv, a) + tail);
  }

  /** Between the first byte of a segment and its last the request has no meaning. */
  lemma RequestLacks(h: Socks5)
    requires h.InRequest() && h.readOffset < h.readBuf.Length
    ensures ScanRequest(h.req) == More
  {
    var k := |h.req| - h.readOffset;
    var prefix, part := h.req[..k], h.req[k..];
    assert h.req == prefix + part;
    if h.state == FIRST_REQUEST {
      assert |h.req| < 4;
    } else if h.state.atype == 3 && h.state.need == 1 {
      LengthLacks(prefix, h.state.cmd);
    } else {
      AddressLacks(prefix, h.state.cmd, h.state.atype, h.state.need, part);
    }
  }

  /**
   The handshake of a client with the right credentials ends with the socket it asked for, unless the
   transport fails, or a segment came in pieces and the read without room behind it is answered with zero.
   */
  lemma EntitledIsServed(h: Socks5, r: Result<Socket>, methods: Bytes, u: Bytes, p: Bytes,
                         cmd: byte, rsv: byte, a: Addr, tail: Bytes)
    requires h.Ended(Ready(r)) && Asks(h, methods, u, p, cmd, rsv, a, tail) && Entitled(h, u, p) && FreshStart(h.start)
    ensures r == Answer(cmd, a) || Excused(h, r)
  {
    hide Socks5.Authenticated, Socks5.InAuthentication, Socks5.Streams, Asks, Unread, S5Authenticate.Explained;
    match r {
      case Ok(socket) =>
        AskedFor(h, methods, u, p, cmd, rsv, a, tail);
      case Err(e) =>
        if h.Authenticated() {
          AskedFor(h, methods, u, p, cmd, rsv, a, tail);
        }
        if h.Starved() && h.InRequest() {
          RequestLacks(h);
        }
        GreetingAsks(h, methods, u, p, cmd, rsv, a, tail);
        if h.auth.stream == h.stream && h.AuthFailed(e) {
          AuthAsks(h, e, methods, u, p, cmd, rsv, a, tail);
        }
    }
  }

  /** The transport failed, or a read without room was answered with zero. */
  ghost predicate Excused(h: Socks5, r: Result<Socket>)
    reads h`denied, h`state, h.auth`wbuf
  {
    && r.Err?
    && (|| r.error == Io
        || (r.error == UnexpectedEof && (!h.auth.standard || h.auth.wbuf.Some?))
        || (r.error == ConnectionReset && (h.denied || h.state.Success?)))
  }

  lemma AskedFor(h: Socks5, methods: Bytes, u: Bytes, p: Bytes, cmd: byte, rsv: byte, a: Addr, tail: Bytes)
    requires Asks(h, methods, u, p, cmd, rsv, a, tail) && FreshStart(h.start) && h.Authenticated()
    ensures match ScanRequest(h.req)
            case More => h.stream.target.rest != []
            case Parsed(result, _) => result == Answer(cmd, a)
  {
    AuthenticatedAsks(h, methods, u, p, cmd, rsv, a, tail);
    RequestPasses(h.req, h.stream.target.rest, cmd, rsv, a, tail);
  }

  /** The greeting of such a client is neither declined nor cut short. */
  lemma GreetingAsks(h: Socks5, methods: Bytes, u: Bytes, p: Bytes, cmd: byte, rsv: byte, a: Addr, tail: Bytes)
    requires Asks(h, methods, u, p, cmd, rsv, a, tail) && FreshStart(h.start)
    ensures h.Untouched() && |h.head| == 2 ==> h.head[0] == 5
    ensures h.InGreeting() && h.readOffset < h.readBuf.Length ==> h.head != Unread(h.start)
  {
    var all := Unread(h.start);
    assert |all| >= 2 + |methods| && all[0] == 5 && all[1] == |methods|;
    if h.Untouched() && |h.head| == 2 {
      assert h.head[0] == all[0];
    }
    if h.InGreeting() && h.readOffset < h.readBuf.Length && h.head == all {
      GreetingStarvesEarly(h);
    }
  }

  lemma AuthAsks(h: Socks5, e: Error, methods: Bytes, u: Bytes, p: Bytes, cmd: byte, rsv: byte, a: Addr, tail: Bytes)
    requires Asks(h, methods, u, p, cmd, rsv, a, tail) && FreshStart(h.start) && Entitled(h, u, p)
    requires h.auth.stream == h.stream && h.AuthFailed(e)
    ensures e == Io || (e == UnexpectedEof && (!h.auth.standard || h.auth.wbuf.Some?))
  {
    hide RequestBytes, AuthSpec.Request, Unread, S5Authenticate.Explained;
    BehindAsks(h, methods, u, p, cmd, rsv, a, tail);
    if h.auth.standard {
      EntitledPasses(h.auth, h.stream.target.rest, u, p, RequestBytes(cmd, rsv, a) + tail, e);
    }
  }

  /** A served client got its own request and had the right credentials. */
  lemma ServedIsEntitled(h: Socks5, socket: Socket, methods: Bytes, u: Bytes, p: Bytes,
                         cmd: byte, rsv: byte, a: Addr, tail: Bytes)
    requires h.Ended(Ready(Ok(socket))) && Asks(h, methods, u, p, cmd, rsv, a, tail) && FreshStart(h.start)
    ensures Answer(cmd, a) == Ok(socket) && h.stream.target.rest == tail && Entitled(h, u, p)
  {
    hide Asks, S5Authenticate.Passed, RequestBytes, Unread;
    AuthenticatedAsks(h, methods, u, p, cmd, rsv, a, tail);
    AsksProperly(h, methods, u, p, cmd, rsv, a, tail);
    SameRequest(h.req, h.stream.target.rest, cmd, rsv, a, tail, socket);
  }

  lemma AsksProperly(h: Socks5, methods: Bytes, u: Bytes, p: Bytes, cmd: byte, rsv: byte, a: Addr, tail: Bytes)
    requires Asks(h, methods, u, p, cmd, rsv, a, tail)
    ensures WellFormed(a) && (a.Domain? ==> |a.name| <= 253) && Answer(cmd, a).Ok?
  {
  }

  /**
   A client that sends opening and request, served for up to `polls` polls, with any answers of the
   transport in between. If the handshake ends, it gets the socket it asked for exactly if its
   credentials are right, no read without room was answered with zero, and the transport did not
   fail; a read without room is one behind a segment in pieces. A transport that never stands still
   answers every such read with zero, so that then every segment has to come in one read.
   */
  method Shake(h: Socks5, polls: nat, turns: nat, ghost methods: Bytes, ghost u: Bytes, ghost p: Bytes,
               ghost cmd: byte, ghost rsv: byte, ghost a: Addr, ghost tail: Bytes)
    returns (r: Option<Result<Socket>>)
    requires h.Valid() && h.Tallied() && h.cuts == 0 && !h.denied && h.stream.Valid()
    requires Asks(h, methods, u, p, cmd, rsv, a, tail) && FreshStart(h.start)
    modifies h, h.readBuf, h.auth, h.auth.rbuf, h.stream, h.stream.backedBuf, h.stream.markedBuf, h.stream.target
    ensures r.Some? && r.value.Ok? ==> r.value == Answer(cmd, a) && h.stream.target.rest == tail && Entitled(h, u, p)
    ensures r.Some? && Entitled(h, u, p) ==>
              && (r.value == Answer(cmd, a) <==> !h.denied && !h.Blames(Ready(r.value), turns))
              && (h.denied ==> r.value == Err(ConnectionReset))
    ensures h.denied ==> r.Some? && h.cuts > 0
    ensures r.Some? && h.Blames(Ready(r.value), turns) ==> h.stream.target.stalls > old(h.stream.target.stalls)
    ensures r.None? ==>
              || h.stream.target.stalls >= old(h.stream.target.stalls) + polls
              || (h.state.Success? && (turns == 0 || h.resent))
    ensures polls > 0 && turns > 0 && !h.resent && h.stream.target.stalls == old(h.stream.target.stalls) ==>
              && r.Some?
              && (Entitled(h, u, p) ==> (r.value == Answer(cmd, a) <==> h.cuts == 0) && (h.cuts > 0 <==> h.denied))
  {
    hide Asks, Socks5.Valid, Socks5.Ended, Socks5.Tallied, Socks5.Blames, Unread;
    r := None;
    var i := 0;
    while i < polls
      invariant i <= polls && h.Valid() && h.Tallied() && !h.denied && h.stream.Unbuffers()
      invariant h.auth.rbuf == null || h.auth.rbuf == old(h.auth.rbuf) || fresh(h.auth.rbuf)
      invariant h.readBuf == old(h.readBuf) || fresh(h.readBuf)
      invariant h.stream.target.stalls >= old(h.stream.target.stalls)
      invariant h.stream.target.stalls >= old(h.stream.target.stalls) + i || (h.state.Success? && (turns == 0 || h.resent))
      invariant i == 0 ==> h.cuts == 0
    {
      var answer := h.Poll(turns);
      i := i + 1;
      if answer.Ready? {
        r := Some(answer.result);
        Settles(h, answer.result, turns, methods, u, p, cmd, rsv, a, tail);
        return;
      }
      Waits(h, turns);
    }
  }

  lemma Waits(h: Socks5, turns: nat)
    requires h.Ended(Pending)
    ensures h.Valid() && !h.denied
    ensures !h.Blames(Pending, turns) ==> h.state.Success? && (turns == 0 || h.resent)
  {
  }

  lemma Settles(h: Socks5, r: Result<Socket>, turns: nat,
                methods: Bytes, u: Bytes, p: Bytes, cmd: byte, rsv: byte, a: Addr, tail: Bytes)
    requires h.Ended(Ready(r)) && h.Tallied() && Asks(h, methods, u, p, cmd, rsv, a, tail) && FreshStart(h.start)
    ensures Answer(cmd, a).Ok?
    ensures r.Ok? ==> r == Answer(cmd, a) && h.stream.target.rest == tail && Entitled(h, u, p) && !h.denied
    ensures r.Err? && Entitled(h, u, p) ==> h.denied || h.Blames(Ready(r), turns)
    ensures h.denied ==> r == Err(ConnectionReset) && h.cuts > 0
    ensures r.Ok? ==> !h.Blames(Ready(r), turns)
  {
    hide Asks, Unread, Socks5.Valid;
    AsksProperly(h, methods, u, p, cmd, rsv, a, tail);
    if r.Ok? {
      ServedIsEntitled(h, r.value, methods, u, p, cmd, rsv, a, tail);
    } else if Entitled(h, u, p) {
      EntitledIsServed(h, r, methods, u, p, cmd, rsv, a, tail);
    }
  }

  // ---- The same, said by the bytes ----

  /** Who knocks: what it offers, who it says it is, what it wants, and what it sends behind that. */
  datatype Client = Client(methods: Bytes, user: Bytes, pass: Bytes, cmd: byte, rsv: byte, target: Addr, tail: Bytes)

  /** These bytes are what such a client sends, with or without its name and password. */
  ghost predicate Speaks(all: Bytes, c: Client, login: bool) {
    && |c.methods| < 256 && |c.user| < 256 && 0 < |c.pass| < 256
    && WellFormed(c.target) && (c.target.Domain? ==> |c.target.name| <= 253) && (c.cmd == 1 || c.cmd == 3)
    && all == [5, |c.methods|] + c.methods + (if login then [1, |c.user|] + c.user + [|c.pass|] + c.pass else []) +
              (RequestBytes(c.cmd, c.rsv, c.target) + c.tail)
  }

  /** What it gets. */
  function Wanted(c: Client): Socket {
    if c.cmd == 1 then Tcp(c.target) else Udp(c.target)
  }

  lemma SpeaksAsks(h: Socks5, c: Client)
    requires Speaks(Unread(h.start), c, h.auth.standard)
    ensures Asks(h, c.methods, c.user, c.pass, c.cmd, c.rsv, c.target, c.tail)
    ensures Answer(c.cmd, c.target) == Ok(Wanted(c)) && (c.cmd == 1 || c.cmd == 3) && !Foreign(Unread(h.start))
  {
    hide RequestBytes;
    var all := Unread(h.start);
    assert all[0] == 5;
  }

  /** How the handshake of such a client can end. */
  lemma ClientEnds(h: Socks5, r: Result<Socket>, turns: nat, c: Client)
    requires h.Ended(Ready(r)) && h.Tallied() && FreshStart(h.start) && Speaks(Unread(h.start), c, h.auth.standard)
    ensures r.Ok? ==> r.value == Wanted(c) && h.stream.target.rest == c.tail && Entitled(h, c.user, c.pass)
    ensures r.Err? && Entitled(h, c.user, c.pass) ==> h.denied || h.Blames(Ready(r), turns)
  {
    hide Asks, Speaks, Socks5.Ended, Unread;
    SpeaksAsks(h, c);
    Settles(h, r, turns, c.methods, c.user, c.pass, c.cmd, c.rsv, c.target, c.tail);
  }

  /** Byte by byte: the request for an IPv4 address is answered with that address, and the port has its high byte first. */
  lemma AnswerOnTheWire(h: Socks5, socket: Socket, methods: Bytes, cmd: byte, rsv: byte, ip: Bytes, hi: byte, lo: byte, tail: Bytes)
    requires h.Streams() && h.Done(socket) && FreshStart(h.start) && !h.auth.standard
    requires |methods| < 256 && |ip| == 4
    requires Unread(h.start) == [5, |methods|] + methods + ([5, cmd, rsv, 1] + ip + [hi, lo] + tail)
    ensures var a := V4(ip, 256 * (hi as int) + lo as int);
            (cmd == 1 && socket == Tcp(a)) || (cmd == 3 && socket == Udp(a))
    ensures h.stream.target.rest == tail
  {
    hide Socks5.Streams, Socks5.Done, RequestBytes, Unread;
    var a := V4(ip, 256 * (hi as int) + lo as int);
    BytesOnTheWire(cmd, rsv, ip, hi, lo);
    assert [5, |methods|] + methods + [] == [5, |methods|] + methods;
    DoneFacts(h, socket);
    HandshakeIsTheRequest(h, socket, methods, [], [0], cmd, rsv, a, tail);
    CommandsOnTheWire(cmd, a);
  }

  /** The stream begins with a greeting and this name and this password. */
  ghost predicate LoggedIn(all: Bytes, name: Bytes, pass: Bytes) {
    && |name| < 256 && 0 < |pass| < 256
    && exists methods: Bytes, rest: Bytes ::
         && |methods| < 256
         && all == [5, |methods|] + methods + ([1, |name|] + name + [|pass|] + pass) + rest
  }

  /** Whatever was sent: a handshake that went past the authentication began with the right name and password. */
  lemma PassedIsLoggedIn(h: Socks5)
    requires h.Authenticated() && h.auth.standard && |OrEmpty(h.start.backed)| <= |h.head|
    ensures LoggedIn(Unread(h.start), h.auth.username, h.auth.password)
  {
    hide Unread;
    var got, name, pass := h.auth.got, h.auth.username, h.auth.password;
    var ul: nat := got[1];
    assert |got[2..2 + ul]| == ul && |got[3 + ul..]| > 0;
    AuthSpec.AcceptedMeans(got, name, pass);
    var methods, rest := h.head[2..], h.req + h.stream.target.rest;
    assert got == [1, |name|] + name + [|pass|] + pass;
    assert h.head == [5, |methods|] + methods;
    assert h.head + (got + h.req + h.stream.target.rest) == [5, |methods|] + methods + got + rest;
  }

  // ---- Authentication alone ----

  /** How the authentication of a well-formed request can end. */
  lemma LoginEnds(auth: S5Authenticate, rest: Bytes, u: Bytes, p: Bytes, tail: Bytes, e: Error)
    requires |u| < 256 && 0 < |p| < 256 && auth.standard && auth.Explained(e)
    requires auth.got + rest == AuthSpec.Request(u, p) + tail && rest == auth.stream.target.rest
    ensures || e == Io
            || (e == UnexpectedEof && auth.wbuf.Some?)
            || (e == SocksAuthenticate && (u != auth.username || p != auth.password) && rest == tail)
  {
    AuthSpec.UndecidedHasMore(auth.got, rest, u, p, tail, auth.username, auth.password);
    if e == SocksAuthenticate {
      AuthSpec.AcceptedIff(auth.got, rest, u, p, tail, auth.username, auth.password);
    }
  }

  /**
   A client that sends a name and a password, driven for up to `polls` polls. However its bytes are cut up
   and whenever they come, it passes only if both are right, is refused only if one is wrong, and nothing
   else can happen but a failure of the transport; every poll that leaves it waiting is one of the transport.
   */
  method Login(auth: S5Authenticate, polls: nat, ghost u: Bytes, ghost p: Bytes, ghost tail: Bytes)
    returns (r: Option<Result<()>>)
    requires auth.Valid() && auth.standard && |u| < 256 && 0 < |p| < 256
    requires auth.got + auth.stream.target.rest == AuthSpec.Request(u, p) + tail
    modifies auth, auth.rbuf, auth.stream, auth.stream.target
    ensures auth.stream.target.stalls >= old(auth.stream.target.stalls)
    ensures r.Some? && r.value.Ok? ==> u == auth.username && p == auth.password && auth.stream.target.rest == tail
    ensures r == Some(Err(SocksAuthenticate)) ==>
              (u != auth.username || p != auth.password) && auth.stream.target.rest == tail
    ensures r.Some? && r.value.Err? && r.value.error != SocksAuthenticate ==>
              && (r.value.error == Io || (r.value.error == UnexpectedEof && auth.wbuf.Some?))
              && auth.stream.target.stalls > old(auth.stream.target.stalls)
    ensures r.None? ==> auth.stream.target.stalls >= old(auth.stream.target.stalls) + polls
  {
    hide S5Authenticate.Valid, S5Authenticate.Explained, AuthSpec.Request;
    r := None;
    var i := 0;
    while i < polls
      invariant auth.Valid() && i <= polls
      invariant auth.rbuf == null || auth.rbuf == old(auth.rbuf) || fresh(auth.rbuf)
      invariant auth.got + auth.stream.target.rest == AuthSpec.Request(u, p) + tail
      invariant auth.stream.target.stalls >= old(auth.stream.target.stalls)
      invariant auth.stream.target.stalls >= old(auth.stream.target.stalls) + i
    {
      i := i + 1;
      var answer := auth.PollStandard();
      match answer {
        case Pending =>
        case Ready(Ok(_)) =>
          AuthSpec.AcceptedIff(auth.got, auth.stream.target.rest, u, p, tail, auth.username, auth.password);
          return Some(answer.result);
        case Ready(Err(e)) =>
          LoginEnds(auth, auth.stream.target.rest, u, p, tail, e);
          return Some(answer.result);
      }
    }
  }
}
