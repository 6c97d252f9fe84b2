/** What every run of the rendezvous keeps, and what follows for visitors and connections. */
module RendezvousSafety {
  import opened Common
  import Cyclic
  import opened Rendezvous

  // ---- Tokens move, or are lost; only a newly chosen id makes one ----

  /** The token a step creates, if any. */
  ghost predicate Creates(e: Event, t: Token) {
    e.PeerKnown? && e.peer.Route? && t == Token(e.id, e.v, e.peer.dst)
  }

  lemma EndVisitCarries(s: State, v: Tag, t: Token)
    ensures Carried(EndVisit(s, v), t) <= Carried(s, t)
  {
  }

  lemma PeerCarries(s: State, v: Tag, peer: Peer, id: u32, t: Token)
    ensures Carried(PeerStep(s, v, peer, id), t)
            <= Carried(s, t) + (if peer.Route? && t == Token(id, v, peer.dst) then 1 else 0)
  {
  }

  lemma ServerReceivesCarries(s: State, t: Token)
    requires |s.toServer| > 0
    ensures Carried(ServerStep(s), t) <= Carried(s, t)
    ensures s.toServer[0] == MapError(t) ==> Carried(ServerStep(s), t) <= Carried(s, t) - 1
  {
    OnWireHead(s.toServer, t);
    var s1 := s.(toServer := s.toServer[1..]);
    var m := s.toServer[0];
    if m.MapError? && m.t.id in s.wait {
      var s2 := s1.(wait := s1.wait - {m.t.id});
      assert Carried(s2, t) == Carried(s1, t);
      EndVisitCarries(s2, s.wait[m.t.id], t);
    }
  }

  lemma ConnHandledCarries(s: State, u: Token, t: Token)
    requires u in s.conns
    ensures Carried(ConnStep(s, u), t) <= Carried(s, t) - (if t == u then 1 else 0)
  {
    var s1 := s.(conns := s.conns - multiset{u});
    assert Carried(s1, t) == Carried(s, t) - (if t == u then 1 else 0);
    if u.id in s.wait {
      var s2 := s1.(wait := s.wait - {u.id});
      assert Carried(s2, t) == Carried(s1, t);
      EndVisitCarries(s2, s.wait[u.id], t);
    }
  }

  lemma SendCarries(s: State, v: Tag, t: Token)
    requires Enabled(s, SendMap(v))
    ensures Carried(SendStep(s, v), t) <= Carried(s, t)
  {
    OnWireSnoc(s.toClient, Map(s.visits[v].t), t);
  }

  lemma ClientReceivesCarries(s: State, t: Token)
    requires |s.toClient| > 0
    ensures Carried(ClientStep(s), t) <= Carried(s, t)
  {
    OnWireHead(s.toClient, t);
  }

  lemma TaskCarries(s: State, e: Event, t: Token)
    requires Enabled(s, e)
    requires e.TaskFails? || e.TaskDies? || e.TaskConnects? || e.ConnDies? || e.ServerPings? || e.ClientPings?
    ensures Carried(Step(s, e), t) <= Carried(s, t)
  {
    match e {
      case ServerPings => OnWireSnoc(s.toClient, Ping, t);
      case ClientPings => OnWireSnoc(s.toServer, Ping, t);
      case TaskFails(u) => OnWireSnoc(s.toServer, MapError(u), t);
      case _ =>
    }
  }

  lemma StepCarries(s: State, e: Event, t: Token)
    requires Enabled(s, e)
    ensures Carried(Step(s, e), t) <= Carried(s, t) + (if Creates(e, t) then 1 else 0)
  {
    hide OnWire, Cyclic.IsNextFree, EndVisit, PeerStep, SendStep, ClientStep, ServerStep, ConnStep;
    match e {
      case VisitorArrives =>
      case PeerKnown(v, peer, id) => PeerCarries(s, v, peer, id, t);
      case SendMap(v) => SendCarries(s, v, t);
      case VisitorGivesUp(v) => EndVisitCarries(s, v, t);
      case ClientReceives => ClientReceivesCarries(s, t);
      case ServerReceives => ServerReceivesCarries(s, t);
      case ConnHandled(u) => ConnHandledCarries(s, u, t);
      case _ => TaskCarries(s, e, t);
    }
  }

  /** A packet or a connection that is acted upon is gone afterwards. */
  lemma SpentToken(s: State, e: Event, t: Token)
    requires Enabled(s, e) && CarriersSound(s)
    requires (e == ServerReceives && s.toServer[0] == MapError(t)) || e == ConnHandled(t)
    ensures Carried(s, t) == 1 && Carried(Step(s, e), t) == 0
  {
    assert Carried(s, t) <= 1;
    if e == ServerReceives {
      ServerReceivesCarries(s, t);
    } else {
      ConnHandledCarries(s, t, t);
    }
  }

  // ---- The invariant is kept ----

  lemma InitInv()
    ensures Inv(Init())
  {
  }

  lemma StepKeepsCarriers(s: State, e: Event)
    requires Inv(s) && Enabled(s, e)
    ensures CarriersSound(Step(s, e))
  {
    var s' := Step(s, e);
    forall t, u | Carried(s', t) > 0 && Carried(s', u) > 0
      ensures Carried(s', t) <= 1 && (t.id == u.id ==> t == u) && Slotted(s', t)
    {
      StepCarries(s, e, t);
      StepCarries(s, e, u);
      CarrierStaysSlotted(s, e, t);
      if e.PeerKnown? {
        FreshIdUncarried(s, e.id);
      }
    }
    forall t ensures Carried(s', t) <= 1 {
    }
    forall t | Carried(s', t) > 0 ensures Slotted(s', t) {
    }
  }

  /** An id that `push` hands out is carried nowhere. */
  lemma FreshIdUncarried(s: State, id: u32)
    requires CarriersSound(s) && Cyclic.IsNextFree(s.wait.Keys, s.ident, id)
    ensures forall t: Token :: t.id == id ==> Carried(s, t) == 0
  {
    forall t: Token | t.id == id ensures Carried(s, t) == 0 {
      assert Carried(s, t) > 0 ==> Slotted(s, t);
    }
  }

  /** The token acted upon was the only one with its id. */
  lemma SpentIdDiffers(s: State, e: Event, u: Token, t: Token)
    requires Enabled(s, e) && CarriersSound(s)
    requires (e == ServerReceives && s.toServer[0] == MapError(u)) || e == ConnHandled(u)
    requires Carried(Step(s, e), t) > 0
    ensures t.id != u.id
  {
    hide OnWire, EndVisit;
    StepCarries(s, e, t);
    SpentToken(s, e, u);
    assert Carried(s, u) > 0 && Carried(s, t) > 0;
  }

  lemma CarrierStaysSlotted(s: State, e: Event, t: Token)
    requires Inv(s) && Enabled(s, e) && Carried(Step(s, e), t) > 0
    ensures Slotted(Step(s, e), t)
  {
    hide OnWire, Slotted, PeerStep, ServerStep, ConnStep, EndVisit;
    StepCarries(s, e, t);
    if e == ServerReceives && s.toServer[0].MapError? {
      SpentIdDiffers(s, e, s.toServer[0].t, t);
      assert Slotted(s, t);
      ServerKeepsSlotted(s, t);
    } else if e.ConnHandled? {
      SpentIdDiffers(s, e, e.t, t);
      assert Slotted(s, t);
      ConnKeepsSlotted(s, e.t, t);
    } else if Creates(e, t) {
      CreatedIsSlotted(s, e, t);
    } else {
      assert Slotted(s, t);
      if e.PeerKnown? {
        PeerKeepsSlotted(s, e.v, e.peer, e.id, t);
      } else {
        OthersKeepSlotted(s, e, t);
      }
    }
  }

  lemma ServerKeepsSlotted(s: State, t: Token)
    requires |s.toServer| > 0 && s.toServer[0].MapError? && s.toServer[0].t.id != t.id && Slotted(s, t)
    ensures Slotted(ServerStep(s), t)
  {
  }

  lemma ConnKeepsSlotted(s: State, u: Token, t: Token)
    requires u.id != t.id && Slotted(s, t)
    ensures Slotted(ConnStep(s, u), t)
  {
  }

  lemma OthersKeepSlotted(s: State, e: Event, t: Token)
    requires Inv(s) && Enabled(s, e) && Slotted(s, t) && !e.PeerKnown? && !e.ConnHandled?
    requires e == ServerReceives ==> !s.toServer[0].MapError?
    ensures Slotted(Step(s, e), t)
  {
  }

  lemma CreatedIsSlotted(s: State, e: Event, t: Token)
    requires Enabled(s, e) && Creates(e, t)
    ensures Slotted(Step(s, e), t)
  {
  }

  lemma PeerKeepsSlotted(s: State, v: Tag, peer: Peer, id: u32, t: Token)
    requires VisitsSound(s) && Enabled(s, PeerKnown(v, peer, id)) && Slotted(s, t)
    ensures Slotted(PeerStep(s, v, peer, id), t)
  {
    assert s.visits[v].Sniffing? && Slotless(s, v);
  }

  lemma EndVisitKeepsTasks(s: State, v: Tag)
    requires TasksSound(s)
    ensures TasksSound(EndVisit(s, v))
  {
  }

  /** A slot may go once its visitor has ended. */
  lemma FreeSlotKeepsTasks(s: State, id: u32)
    requires TasksSound(s) && id in s.wait && s.wait[id] !in s.visits
    ensures TasksSound(s.(wait := s.wait - {id}))
    ensures Slotless(s.(wait := s.wait - {id}), s.wait[id])
  {
    var s' := s.(wait := s.wait - {id});
    forall v | v in s'.visits && s'.visits[v].Routed? ensures Slotted(s', s'.visits[v].t) {
      assert Slotted(s, s.visits[v].t);
    }
    forall v: Tag | Slotless(s, v) ensures Slotless(s', v) {
    }
  }

  lemma PeerKeepsTasks(s: State, v: Tag, peer: Peer, id: u32)
    requires TasksSound(s) && Enabled(s, PeerKnown(v, peer, id))
    ensures TasksSound(PeerStep(s, v, peer, id))
  {
    var s1 := s.(ident := id, wait := s.wait[id := v]);
    var s' := PeerStep(s, v, peer, id);
    assert Slotless(s, v) && id !in s.wait;
    forall u: Tag | u != v && Slotless(s, u) ensures Slotless(s', u) {
    }
    forall u | u in s.visits && s.visits[u].Routed? && u != v ensures Slotted(s', s.visits[u].t) {
      assert Slotted(s, s.visits[u].t);
    }
    if peer.Route? {
      assert Slotted(s', Token(id, v, peer.dst));
    }
  }

  lemma MapErrorKeepsTasks(s: State, id: u32)
    requires TasksSound(s)
    ensures TasksSound(MapErrorStep(s, id))
  {
    if id in s.wait {
      var s1 := EndVisit(s, s.wait[id]);
      EndVisitKeepsTasks(s, s.wait[id]);
      FreeSlotKeepsTasks(s1, id);
    }
  }

  lemma LogKeepsTasks(s: State, t: Token)
    requires TasksSound(s) && t.tag < s.next && t.tag in s.asked && s.asked[t.tag] == t.dst
    requires t.tag !in s.visits && Slotless(s, t.tag)
    requires forall i :: 0 <= i < |s.log| ==> s.log[i].visitor != t.tag
    ensures TasksSound(s.(log := s.log + [Pairing(t.tag, t)]))
  {
    var s' := s.(log := s.log + [Pairing(t.tag, t)]);
    forall v: Tag | Slotless(s, v) ensures Slotless(s', v) {
    }
    forall v | v in s.visits && s.visits[v].Routed? ensures Slotted(s', s.visits[v].t) {
      assert Slotted(s, s.visits[v].t);
    }
  }

  lemma ArriveKeepsTasks(s: State)
    requires TasksSound(s)
    ensures TasksSound(Step(s, VisitorArrives))
  {
    var s' := Step(s, VisitorArrives);
    forall v: Tag | Slotless(s, v) ensures Slotless(s', v) {
    }
    assert Slotless(s', s.next);
    forall v | v in s.visits && s.visits[v].Routed? ensures Slotted(s', s.visits[v].t) {
      assert Slotted(s, s.visits[v].t);
    }
  }

  /** Steps on the wires and in the client leave the server's tables alone. */
  lemma TransitKeepsTasks(s: State, s': State)
    requires TasksSound(s)
    requires s' == s.(unsent := s'.unsent, toClient := s'.toClient, tasks := s'.tasks,
                      toServer := s'.toServer, conns := s'.conns)
    ensures TasksSound(s')
  {
    forall v: Tag | Slotless(s, v) ensures Slotless(s', v) {
    }
    forall v | v in s.visits && s.visits[v].Routed? ensures Slotted(s', s.visits[v].t) {
      assert Slotted(s, s.visits[v].t);
    }
  }

  lemma ConnKeepsTasks(s: State, t: Token)
    requires TasksSound(s) && Slotted(s, t)
    ensures TasksSound(ConnStep(s, t))
  {
    var s0 := s.(conns := s.conns - multiset{t});
    var s1 := EndVisit(s0, t.tag);
    EndVisitKeepsTasks(s0, t.tag);
    FreeSlotKeepsTasks(s1, t.id);
    var s2 := s1.(wait := s1.wait - {t.id});
    if t.tag in s.visits {
      LogKeepsTasks(s2, t);
      assert ConnStep(s, t) == s2.(log := s.log + [Pairing(t.tag, t)]);
    } else {
      assert ConnStep(s, t) == s2;
    }
  }

  lemma StepKeepsTasks(s: State, e: Event)
    requires Inv(s) && Enabled(s, e)
    ensures TasksSound(Step(s, e))
  {
    match e {
      case PeerKnown(v, peer, id) => PeerKeepsTasks(s, v, peer, id);
      case VisitorGivesUp(v) => EndVisitKeepsTasks(s, v);
      case ServerReceives =>
        var s1 := s.(toServer := s.toServer[1..]);
        TransitKeepsTasks(s, s1);
        if s.toServer[0].MapError? {
          MapErrorKeepsTasks(s1, s.toServer[0].t.id);
        }
      case ConnHandled(t) =>
        assert Carried(s, t) > 0;
        ConnKeepsTasks(s, t);
      case VisitorArrives => ArriveKeepsTasks(s);
      case _ => TransitKeepsTasks(s, Step(s, e));
    }
  }

  lemma StepKeepsInv(s: State, e: Event)
    requires Inv(s) && Enabled(s, e)
    ensures Inv(Step(s, e))
  {
    StepKeepsCarriers(s, e);
    StepKeepsTasks(s, e);
  }

  // ---- Runs ----

  /** The state after a sequence of events from the start. */
  function After(es: seq<Event>): State {
    if |es| == 0 then Init() else Step(After(es[..|es| - 1]), es[|es| - 1])
  }

  ghost predicate IsRun(es: seq<Event>) {
    |es| > 0 ==> IsRun(es[..|es| - 1]) && Enabled(After(es[..|es| - 1]), es[|es| - 1])
  }

  lemma {:induction false} RunKeepsInv(es: seq<Event>)
    requires IsRun(es)
    ensures Inv(After(es))
  {
    if |es| == 0 {
      InitInv();
    } else {
      RunKeepsInv(es[..|es| - 1]);
      StepKeepsInv(After(es[..|es| - 1]), es[|es| - 1]);
    }
  }

  /**
   In every run, each connection handed to a visitor was opened for that visitor's own request,
   and neither a visitor nor a request is served twice.
   */
  lemma NoCrossPairing(es: seq<Event>)
    requires IsRun(es)
    ensures var s := After(es);
            && (forall i :: 0 <= i < |s.log| ==>
                  var p := s.log[i];
                  p.conn.tag == p.visitor && p.visitor in s.asked && p.conn.dst == s.asked[p.visitor])
            && (forall i, j :: 0 <= i < j < |s.log| ==>
                  s.log[i].visitor != s.log[j].visitor && s.log[i].conn != s.log[j].conn)
  {
    RunKeepsInv(es);
  }

  /** In every run, an id that `push` hands out stands in no packet, task or connection any more. */
  lemma ReusedIdIsForgotten(es: seq<Event>, v: Tag, peer: Peer, id: u32)
    requires IsRun(es) && Enabled(After(es), PeerKnown(v, peer, id))
    ensures forall t: Token :: t.id == id ==> Carried(After(es), t) == 0
  {
    RunKeepsInv(es);
    FreshIdUncarried(After(es), id);
  }

  /** In every run, a connection that arrives while its visitor still waits reaches that visitor. */
  lemma ArrivalReachesItsVisitor(es: seq<Event>, t: Token)
    requires IsRun(es) && Enabled(After(es), ConnHandled(t)) && t.tag in After(es).visits
    ensures Step(After(es), ConnHandled(t)).log == After(es).log + [Pairing(t.tag, t)]
  {
    RunKeepsInv(es);
    assert Carried(After(es), t) > 0;
    assert Slotted(After(es), t);
  }

  /** In every run, a MapError ends no visitor but the one whose request failed. */
  lemma MapErrorEndsOnlyItsVisitor(es: seq<Event>, t: Token, v: Tag)
    requires IsRun(es) && Enabled(After(es), ServerReceives) && After(es).toServer[0] == MapError(t)
    ensures v in Step(After(es), ServerReceives).visits <==> v in After(es).visits && v != t.tag
  {
    RunKeepsInv(es);
    var s := After(es);
    OnWireHead(s.toServer, t);
    assert Carried(s, t) > 0;
    assert Slotted(s, t);
  }

  // ---- Leaked slots ----

  /** A slot whose id nothing carries: its Map, task or connection was lost, or was never sent. */
  ghost predicate Orphaned(s: State, id: u32) {
    id in s.wait && forall t: Token :: t.id == id ==> Carried(s, t) == 0
  }

  /** Nothing was handed to `v` since the log had `n` entries. */
  ghost predicate UnservedSince(s: State, n: nat, v: Tag) {
    n <= |s.log| && forall i :: n <= i < |s.log| ==> s.log[i].visitor != v
  }

  lemma OrphanSlotStays(s: State, e: Event, id: u32)
    requires Inv(s) && Enabled(s, e) && Orphaned(s, id)
    ensures id in Step(s, e).wait && Step(s, e).wait[id] == s.wait[id]
  {
    hide TasksSound, OnWire, PeerStep, EndVisit;
    match e {
      case ServerReceives =>
        if s.toServer[0].MapError? {
          OnWireHead(s.toServer, s.toServer[0].t);
          assert Carried(s, s.toServer[0].t) > 0;
        }
        ServerKeepsOthers(s, id);
      case ConnHandled(t) =>
        assert Carried(s, t) > 0;
        ConnKeepsOthers(s, t, id);
      case PeerKnown(v, peer, taken) => PeerKeepsOthers(s, v, peer, taken, id);
      case VisitorGivesUp(v) => EndVisitKeepsSlots(s, v);
      case _ =>
    }
  }

  lemma EndVisitKeepsSlots(s: State, v: Tag)
    ensures EndVisit(s, v).wait == s.wait
  {
  }

  lemma PeerKeepsOthers(s: State, v: Tag, peer: Peer, taken: u32, id: u32)
    requires taken !in s.wait && id in s.wait
    ensures id in PeerStep(s, v, peer, taken).wait && PeerStep(s, v, peer, taken).wait[id] == s.wait[id]
  {
  }

  lemma ServerKeepsOthers(s: State, id: u32)
    requires id in s.wait && |s.toServer| > 0 && (s.toServer[0].MapError? ==> s.toServer[0].t.id != id)
    ensures id in ServerStep(s).wait && ServerStep(s).wait[id] == s.wait[id]
  {
  }

  lemma ConnKeepsOthers(s: State, t: Token, id: u32)
    requires id in s.wait && t.id != id
    ensures id in ConnStep(s, t).wait && ConnStep(s, t).wait[id] == s.wait[id]
  {
  }

  lemma OrphanStays(s: State, e: Event, id: u32)
    requires Inv(s) && Enabled(s, e) && Orphaned(s, id)
    ensures Orphaned(Step(s, e), id) && Step(s, e).wait[id] == s.wait[id]
  {
    OrphanSlotStays(s, e, id);
    forall t: Token | t.id == id ensures Carried(Step(s, e), t) == 0 {
      StepCarries(s, e, t);
      assert !Creates(e, t);
    }
  }

  lemma OrphanUnserved(s: State, e: Event, id: u32, n: nat)
    requires Inv(s) && Enabled(s, e) && Orphaned(s, id) && UnservedSince(s, n, s.wait[id])
    ensures UnservedSince(Step(s, e), n, s.wait[id])
  {
    if e.ConnHandled? {
      assert Carried(s, e.t) > 0 && Slotted(s, e.t);
      assert e.t.id != id;
    }
  }

  /**
   The time-out of either side leaves its slot behind for good: once nothing carries an id that
   is still in the waiting list, no continuation of the run frees the slot or serves its visitor.
   */
  lemma {:induction false} OrphanStaysForEver(es: seq<Event>, more: seq<Event>, id: u32)
    requires IsRun(es) && IsRun(es + more) && Orphaned(After(es), id)
    ensures Orphaned(After(es + more), id) && After(es + more).wait[id] == After(es).wait[id]
    ensures UnservedSince(After(es + more), |After(es).log|, After(es).wait[id])
  {
    if |more| == 0 {
      assert es + more == es;
    } else {
      var init := more[..|more| - 1];
      assert (es + more)[..|es + more| - 1] == es + init;
      OrphanStaysForEver(es, init, id);
      RunKeepsInv(es + init);
      OrphanStays(After(es + init), more[|more| - 1], id);
      OrphanUnserved(After(es + init), more[|more| - 1], id, |After(es).log|);
    }
  }

  /** A visitor that times out before its Map is sent orphans its slot, in every run. */
  lemma GivingUpEarlyOrphans(es: seq<Event>, v: Tag)
    requires IsRun(es) && Enabled(After(es), SendMap(v))
    ensures Orphaned(Step(After(es), VisitorGivesUp(v)), After(es).visits[v].t.id)
  {
    RunKeepsInv(es);
    var s := After(es);
    var u := s.visits[v].t;
    assert Carried(s, u) == 1 && Slotted(s, u);
    forall t: Token | t.id == u.id ensures Carried(EndVisit(s, v), t) == 0 {
      EndVisitCarries(s, v, t);
      assert Carried(s, t) > 0 ==> t == u;
    }
  }

  /** So does a request of the client that ends without an answer. */
  lemma SilentTaskOrphans(es: seq<Event>, t: Token)
    requires IsRun(es) && Enabled(After(es), TaskDies(t))
    ensures Orphaned(Step(After(es), TaskDies(t)), t.id)
  {
    RunKeepsInv(es);
    var s := After(es);
    assert Carried(s, t) == 1 && Slotted(s, t);
    forall u: Token | u.id == t.id ensures Carried(Step(s, TaskDies(t)), u) == 0 {
      StepCarries(s, TaskDies(t), u);
      assert Carried(s, u) > 0 ==> u == t;
    }
  }

  // ---- Ids are reused ----

  ghost predicate Quiet(s: State) {
    && s.visits == map[] && s.wait == map[] && s.unsent == multiset{} && s.toClient == [] && s.tasks == multiset{}
    && s.toServer == [] && s.conns == multiset{}
  }

  lemma Extend(es: seq<Event>, e: Event)
    requires IsRun(es) && Enabled(After(es), e)
    ensures IsRun(es + [e]) && After(es + [e]) == Step(After(es), e)
  {
    assert (es + [e])[..|es|] == es;
  }

  /** A quiet state in which the visitor `v` has just been told about to the client. */
  function Asking(s: State, dst: Socket): State {
    var v, t := s.next, Token(s.ident, s.next, dst);
    s.(next := v + 1, wait := map[t.id := v], visits := map[v := Routed(t)], asked := s.asked[v := dst], toClient := [Map(t)])
  }

  lemma Asks(s: State, dst: Socket)
    requires Quiet(s)
    ensures var s1 := Step(s, VisitorArrives);
            var e := PeerKnown(s.next, Route(dst), s.ident);
            && Enabled(s, VisitorArrives) && Enabled(s1, e) && Enabled(Step(s1, e), SendMap(s.next))
            && Step(Step(s1, e), SendMap(s.next)) == Asking(s, dst)
  {
    var s1 := Step(s, VisitorArrives);
    assert Cyclic.FreeAfter(s1.wait.Keys, s1.ident, 0) && Cyclic.At(s1.ident, 0) == s1.ident;
    var s2 := Step(s1, PeerKnown(s.next, Route(dst), s.ident));
    assert s2.unsent == multiset{Token(s.ident, s.next, dst)};
  }

  lemma Meets(s: State, dst: Socket)
    requires Quiet(s)
    ensures var t, a := Token(s.ident, s.next, dst), Asking(s, dst);
            var a1 := Step(a, ClientReceives);
            && Enabled(a, ClientReceives) && Enabled(a1, TaskConnects(t)) && Enabled(Step(a1, TaskConnects(t)), ConnHandled(t))
            && var z := Step(Step(a1, TaskConnects(t)), ConnHandled(t));
            && Quiet(z) && z.log == s.log + [Pairing(s.next, t)] && z.ident == s.ident && z.next == s.next + 1
  {
    var t, a := Token(s.ident, s.next, dst), Asking(s, dst);
    var a1 := Step(a, ClientReceives);
    assert a1.toClient == [] && a1.tasks == multiset{t};
    var a2 := Step(a1, TaskConnects(t));
    assert a2.tasks == multiset{} && a2.conns == multiset{t};
  }

  /** A visitor that comes when nothing is going on can be served, and nothing is going on afterwards. */
  lemma ServeOne(es: seq<Event>, dst: Socket) returns (run: seq<Event>)
    requires IsRun(es) && Quiet(After(es))
    ensures IsRun(run) && Quiet(After(run))
    ensures var s, s' := After(es), After(run);
            && s'.log == s.log + [Pairing(s.next, Token(s.ident, s.next, dst))]
            && s'.ident == s.ident && s'.next == s.next + 1
  {
    hide After, IsRun, Step, Enabled, Quiet, Asking;
    var s := After(es);
    var t := Token(s.ident, s.next, dst);
    Asks(s, dst);
    Meets(s, dst);
    Extend(es, VisitorArrives);
    run := es + [VisitorArrives];
    Extend(run, PeerKnown(s.next, Route(dst), s.ident));
    run := run + [PeerKnown(s.next, Route(dst), s.ident)];
    Extend(run, SendMap(s.next));
    run := run + [SendMap(s.next)];
    Extend(run, ClientReceives);
    run := run + [ClientReceives];
    Extend(run, TaskConnects(t));
    run := run + [TaskConnects(t)];
    Extend(run, ConnHandled(t));
    run := run + [ConnHandled(t)];
  }

  /** The id of a served visitor goes to the next one, and each gets its own connection. */
  lemma IdIsReused(dst1: Socket, dst2: Socket) returns (run: seq<Event>)
    ensures IsRun(run)
    ensures After(run).log == [Pairing(0, Token(0, 0, dst1)), Pairing(1, Token(0, 1, dst2))]
  {
    assert After([]) == Init();
    run := ServeOne([], dst1);
    run := ServeOne(run, dst2);
  }
}
