/**
 The meeting of visitors and client connections (src/net/penetrate/server.rs and client.rs), as
 a transition system over everything that can happen between the server and one client.

 A token follows one request through the system. Its `tag` names the visitor and is ghost
 information: no step of the code decides anything by it. Decisions look at `id` only, which is
 what really travels in the packets.
 */
module Rendezvous {
  import opened Common
  import Cyclic

  type Tag = nat

  /** A network address; only ever passed on. */
  type Socket = nat

  datatype Token = Token(id: u32, tag: Tag, dst: Socket)

  /** Packets on the control connection, in either direction. */
  datatype Msg = Ping | Map(t: Token) | MapError(t: Token)

  /** Where the server's task for one visitor stands. */
  datatype Visit =
    | Sniffing                 // the mock has not answered yet
    | Routed(t: Token)         // owns a slot; sends its Map, then waits on the slot's channel

  /** A data connection handed to a visitor. */
  datatype Pairing = Pairing(visitor: Tag, conn: Token)

  datatype State = State(
    next: Tag,                    // next visitor to arrive
    ident: u32,                   // MQueue.identify
    wait: map<u32, Tag>,          // MQueue.waitList: whose channel sits in the slot
    visits: map<Tag, Visit>,      // live visitor tasks of the server
    asked: map<Tag, Socket>,      // history: what each visitor asked for
    unsent: multiset<Token>,      // routed visitors whose Map is not on the wire yet
    toClient: seq<Msg>,
    tasks: multiset<Token>,       // live tasks of the client
    toServer: seq<Msg>,
    conns: multiset<Token>,       // data connections the server has not yet processed
    log: seq<Pairing>             // history: hand-overs, in order
  )

  function Init(): State {
    State(0, 0, map[], map[], map[], multiset{}, [], multiset{}, [], multiset{}, [])
  }

  /** What the mock decides about a visitor. */
  datatype Peer = Closed | Route(dst: Socket)

  datatype Event =
    | VisitorArrives
    | PeerKnown(v: Tag, peer: Peer, id: u32)   // `mock.call` returned, then `mqueue.push`
    | SendMap(v: Tag)
    | VisitorGivesUp(v: Tag)                   // `wait_for` elapsed or the task failed
    | ServerPings
    | ClientPings
    | ClientReceives
    | TaskFails(t: Token)                      // a connect or the first send failed: MapError
    | TaskDies(t: Token)                       // `wait_for` elapsed: nothing is sent
    | TaskConnects(t: Token)                   // both connects done, Map sent on the new connection
    | ServerReceives
    | ConnDies(t: Token)                       // accepted, but lost before its Map was read
    | ConnHandled(t: Token)

  ghost predicate Enabled(s: State, e: Event) {
    match e
    case VisitorArrives => true
    case PeerKnown(v, peer, id) =>
      v in s.visits && s.visits[v].Sniffing? && Cyclic.IsNextFree(s.wait.Keys, s.ident, id)
    case SendMap(v) => v in s.visits && s.visits[v].Routed? && s.visits[v].t in s.unsent
    case VisitorGivesUp(v) => v in s.visits
    case ServerPings => true
    case ClientPings => true
    case ClientReceives => |s.toClient| > 0
    case TaskFails(t) => t in s.tasks
    case TaskDies(t) => t in s.tasks
    case TaskConnects(t) => t in s.tasks
    case ServerReceives => |s.toServer| > 0
    case ConnDies(t) => t in s.conns
    case ConnHandled(t) => t in s.conns
  }

  /** The visitor's task ends: the future is dropped, and with it a Map it has not sent. */
  function EndVisit(s: State, v: Tag): State {
    if v !in s.visits then s else
    s.(visits := s.visits - {v},
       unsent := if s.visits[v].Routed? then s.unsent - multiset{s.visits[v].t} else s.unsent)
  }

  /** `mock.call` has returned. The slot is taken before its answer is looked at. */
  function PeerStep(s: State, v: Tag, peer: Peer, id: u32): State {
    var s1 := s.(ident := id, wait := s.wait[id := v]);
    match peer
    case Closed => EndVisit(s1, v)
    case Route(dst) =>
      var t := Token(id, v, dst);
      s1.(visits := s.visits[v := Routed(t)], asked := s.asked[v := dst], unsent := s.unsent + multiset{t})
  }

  function SendStep(s: State, v: Tag): State {
    if v in s.visits && s.visits[v].Routed? then
      var t := s.visits[v].t;
      s.(unsent := s.unsent - multiset{t}, toClient := s.toClient + [Map(t)])
    else s
  }

  function ClientStep(s: State): State {
    if |s.toClient| == 0 then s else
    var s1 := s.(toClient := s.toClient[1..]);
    var m := s.toClient[0];
    if m.Map? then s1.(tasks := s.tasks + multiset{m.t}) else s1
  }

  /** Removing the sender of a slot closes its channel, which ends the visitor waiting on it. */
  function MapErrorStep(s: State, id: u32): State {
    if id in s.wait then EndVisit(s.(wait := s.wait - {id}), s.wait[id]) else s
  }

  function ServerStep(s: State): State {
    if |s.toServer| == 0 then s else
    var s1 := s.(toServer := s.toServer[1..]);
    var m := s.toServer[0];
    if m.MapError? then MapErrorStep(s1, m.t.id) else s1
  }

  /** The slot's channel has room for one; sending fails only when the visitor is gone. */
  function ConnStep(s: State, t: Token): State {
    var s1 := s.(conns := s.conns - multiset{t});
    if t.id !in s.wait then s1 else
    var v := s.wait[t.id];
    var s2 := s1.(wait := s.wait - {t.id});
    if v in s.visits then EndVisit(s2, v).(log := s.log + [Pairing(v, t)]) else s2
  }

  function Step(s: State, e: Event): State {
    match e
    case VisitorArrives => s.(next := s.next + 1, visits := s.visits[s.next := Sniffing])
    case PeerKnown(v, peer, id) => PeerStep(s, v, peer, id)
    case SendMap(v) => SendStep(s, v)
    case VisitorGivesUp(v) => EndVisit(s, v)
    case ServerPings => s.(toClient := s.toClient + [Ping])
    case ClientPings => s.(toServer := s.toServer + [Ping])
    case ClientReceives => ClientStep(s)
    case TaskFails(t) => s.(tasks := s.tasks - multiset{t}, toServer := s.toServer + [MapError(t)])
    case TaskDies(t) => s.(tasks := s.tasks - multiset{t})
    case TaskConnects(t) => s.(tasks := s.tasks - multiset{t}, conns := s.conns + multiset{t})
    case ServerReceives => ServerStep(s)
    case ConnDies(t) => s.(conns := s.conns - multiset{t})
    case ConnHandled(t) => ConnStep(s, t)
  }

  // ---- Carriers: everything that still stands for some visitor's request ----

  /** How many packets on a wire carry the token. */
  function OnWire(ms: seq<Msg>, t: Token): nat {
    if |ms| == 0 then 0 else
    OnWire(ms[..|ms| - 1], t) + (if !ms[|ms| - 1].Ping? && ms[|ms| - 1].t == t then 1 else 0)
  }

  lemma OnWireSnoc(ms: seq<Msg>, m: Msg, t: Token)
    ensures OnWire(ms + [m], t) == OnWire(ms, t) + (if !m.Ping? && m.t == t then 1 else 0)
  {
    assert (ms + [m])[..|ms|] == ms;
  }

  lemma {:induction false} OnWireHead(ms: seq<Msg>, t: Token)
    requires |ms| > 0
    ensures OnWire(ms, t) == OnWire(ms[1..], t) + (if !ms[0].Ping? && ms[0].t == t then 1 else 0)
  {
    if |ms| == 1 {
      assert ms[..0] == [] && ms[1..] == [];
    } else {
      var init := ms[..|ms| - 1];
      OnWireHead(init, t);
      assert init[1..] == ms[1..][..|ms| - 2];
    }
  }

  /** In how many places the token is at this moment. */
  function Carried(s: State, t: Token): nat {
    s.unsent[t] + OnWire(s.toClient, t) + s.tasks[t] + OnWire(s.toServer, t) + s.conns[t]
  }

  /** No id is carried twice, and a carried id is in the waiting list under its own visitor. */
  ghost predicate CarriersSound(s: State) {
    && (forall t :: Carried(s, t) <= 1)
    && (forall t, u :: Carried(s, t) > 0 && Carried(s, u) > 0 && t.id == u.id ==> t == u)
    && (forall t :: Carried(s, t) > 0 ==> Slotted(s, t))
  }

  ghost predicate Slotted(s: State, t: Token) {
    t.id in s.wait && s.wait[t.id] == t.tag && t.tag in s.asked && s.asked[t.tag] == t.dst
  }

  ghost predicate VisitsSound(s: State) {
    && (forall v :: v in s.visits ==> v < s.next)
    && (forall v :: v in s.visits && s.visits[v].Routed? ==> s.visits[v].t.tag == v && Slotted(s, s.visits[v].t))
    && (forall v :: v in s.visits && s.visits[v].Sniffing? ==> v !in s.asked && Slotless(s, v))
  }

  ghost predicate Slotless(s: State, v: Tag) {
    forall id :: id in s.wait ==> s.wait[id] != v
  }

  ghost predicate SlotsSound(s: State) {
    && (forall i, j :: i in s.wait && j in s.wait && s.wait[i] == s.wait[j] ==> i == j)
    && (forall i :: i in s.wait ==> s.wait[i] < s.next)
    && (forall v :: v in s.asked ==> v < s.next)
  }

  /** Every hand-over so far went to the visitor who asked for it, and to each visitor once. */
  ghost predicate LogSound(s: State) {
    && (forall i :: 0 <= i < |s.log| ==>
          var p := s.log[i];
          && p.conn.tag == p.visitor
          && p.visitor in s.asked && s.asked[p.visitor] == p.conn.dst
          && p.visitor < s.next
          && p.visitor !in s.visits
          && Slotless(s, p.visitor))
    && (forall i, j :: 0 <= i < j < |s.log| ==> s.log[i].visitor != s.log[j].visitor)
  }

  ghost predicate TasksSound(s: State) {
    VisitsSound(s) && SlotsSound(s) && LogSound(s)
  }

  ghost predicate Inv(s: State) {
    CarriersSound(s) && TasksSound(s)
  }
}
