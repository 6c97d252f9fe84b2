/** Which slots of the waiting list are lost, and which can still be freed. */
module RendezvousLeaks {
  import opened Common
  import Cyclic
  import opened Rendezvous
  import opened RendezvousSafety

  // ---- What is on the wires, and who has yet to send ----

  /** Maps go to the client and MapErrors to the server; a Map that is not sent has a live visitor. */
  ghost predicate WiresSound(s: State) {
    && (forall i :: 0 <= i < |s.toClient| ==> !s.toClient[i].MapError?)
    && (forall i :: 0 <= i < |s.toServer| ==> !s.toServer[i].Map?)
    && (forall t :: t in s.unsent ==> Unsent(s, t))
  }

  ghost predicate Unsent(s: State, t: Token) {
    t.tag in s.visits && s.visits[t.tag] == Routed(t)
  }

  lemma UnsentOnce(s: State, t: Token)
    requires CarriersSound(s)
    ensures s.unsent[t] <= 1
  {
    assert Carried(s, t) <= 1;
  }

  lemma EndVisitKeepsUnsent(s: State, v: Tag)
    requires CarriersSound(s) && WiresSound(s)
    ensures WiresSound(EndVisit(s, v))
  {
    var s' := EndVisit(s, v);
    forall t | t in s'.unsent ensures Unsent(s', t) {
      assert t in s.unsent && Unsent(s, t);
      UnsentOnce(s, t);
    }
  }

  lemma StepKeepsWires(s: State, e: Event)
    requires Inv(s) && WiresSound(s) && Enabled(s, e)
    ensures WiresSound(Step(s, e))
  {
    hide OnWire, Inv, CarriersSound, WiresSound, EndVisit, PeerStep, SendStep, ServerStep, ConnStep, ClientStep, Cyclic.IsNextFree;
    InvHolds(s);
    match e {
      case VisitorGivesUp(v) => EndVisitKeepsUnsent(s, v);
      case ServerReceives => ServerKeepsWires(s);
      case ConnHandled(t) => ConnKeepsWires(s, t);
      case SendMap(v) => SendKeepsWires(s, v);
      case PeerKnown(v, peer, id) => PeerKeepsWires(s, v, peer, id);
      case ClientReceives => ClientKeepsWires(s);
      case VisitorArrives => ArriveKeepsWires(s);
      case _ => TransitKeepsWires(s, e);
    }
  }

  lemma InvHolds(s: State)
    requires Inv(s)
    ensures CarriersSound(s)
  {
  }

  lemma ArriveKeepsWires(s: State)
    requires Inv(s) && WiresSound(s)
    ensures WiresSound(Step(s, VisitorArrives))
  {
    forall t | t in s.unsent ensures Unsent(Step(s, VisitorArrives), t) {
      assert Unsent(s, t);
    }
  }

  lemma ClientKeepsWires(s: State)
    requires WiresSound(s)
    ensures WiresSound(ClientStep(s))
  {
    forall t | t in s.unsent ensures Unsent(ClientStep(s), t) {
      assert Unsent(s, t);
    }
  }

  /** Steps that only put a packet on a wire, or move a task or a connection. */
  lemma TransitKeepsWires(s: State, e: Event)
    requires WiresSound(s) && Enabled(s, e)
    requires e.ServerPings? || e.ClientPings? || e.TaskFails? || e.TaskDies? || e.TaskConnects? || e.ConnDies?
    ensures WiresSound(Step(s, e))
  {
    forall t | t in s.unsent ensures Unsent(Step(s, e), t) {
      assert Unsent(s, t);
    }
  }

  lemma SendKeepsWires(s: State, v: Tag)
    requires Inv(s) && WiresSound(s) && Enabled(s, SendMap(v))
    ensures WiresSound(SendStep(s, v))
  {
    var s' := SendStep(s, v);
    forall t | t in s'.unsent ensures Unsent(s', t) {
      assert t in s.unsent && Unsent(s, t);
    }
  }

  lemma PeerKeepsWires(s: State, v: Tag, peer: Peer, id: u32)
    requires Inv(s) && WiresSound(s) && Enabled(s, PeerKnown(v, peer, id))
    ensures WiresSound(PeerStep(s, v, peer, id))
  {
    var s' := PeerStep(s, v, peer, id);
    forall t | t in s'.unsent ensures Unsent(s', t) {
      assert t in s.unsent ==> Unsent(s, t);
    }
  }

  lemma ServerKeepsWires(s: State)
    requires Inv(s) && WiresSound(s) && |s.toServer| > 0
    ensures WiresSound(ServerStep(s))
  {
    var s1 := s.(toServer := s.toServer[1..]);
    if s.toServer[0].MapError? && s.toServer[0].t.id in s.wait {
      var id := s.toServer[0].t.id;
      VisitEndKeepsWires(s, s1.(wait := s.wait - {id}), s.wait[id]);
    } else {
      forall t | t in s.unsent ensures Unsent(s1, t) {
        assert Unsent(s, t);
      }
    }
  }

  lemma ConnKeepsWires(s: State, t: Token)
    requires Inv(s) && WiresSound(s)
    ensures WiresSound(ConnStep(s, t))
  {
    var s1 := s.(conns := s.conns - multiset{t});
    forall u | u in s.unsent ensures Unsent(s1, u) {
      assert Unsent(s, u);
    }
    if t.id in s.wait {
      VisitEndKeepsWires(s, s1.(wait := s.wait - {t.id}), s.wait[t.id]);
    }
  }

  lemma VisitEndKeepsWires(s: State, s1: State, v: Tag)
    requires CarriersSound(s) && WiresSound(s)
    requires s1.unsent == s.unsent && s1.visits == s.visits && s1.toClient == s.toClient
    requires forall i :: 0 <= i < |s1.toServer| ==> !s1.toServer[i].Map?
    ensures WiresSound(s1) && WiresSound(EndVisit(s1, v))
  {
    var s' := EndVisit(s1, v);
    forall t | t in s.unsent ensures Unsent(s1, t) {
      assert Unsent(s, t);
    }
    forall t | t in s'.unsent ensures Unsent(s', t) {
      assert t in s.unsent && Unsent(s, t);
      UnsentOnce(s, t);
    }
  }

  lemma {:induction false} RunKeepsWires(es: seq<Event>)
    requires IsRun(es)
    ensures WiresSound(After(es))
  {
    if |es| > 0 {
      RunKeepsWires(es[..|es| - 1]);
      RunKeepsInv(es[..|es| - 1]);
      StepKeepsWires(After(es[..|es| - 1]), es[|es| - 1]);
    }
  }

  // ---- What is carried can arrive ----

  lemma OneMore(es: seq<Event>, e: Event)
    requires IsRun(es) && Enabled(After(es), e)
    ensures IsRun(es + [e]) && After(es + [e]) == Step(After(es), e)
    ensures Inv(After(es + [e])) && WiresSound(After(es + [e]))
  {
    Extend(es, e);
    RunKeepsInv(es + [e]);
    RunKeepsWires(es + [e]);
  }

  lemma ConnectionFrees(es: seq<Event>, t: Token) returns (run: seq<Event>)
    requires IsRun(es) && t in After(es).conns
    ensures es <= run && IsRun(run) && t.id !in After(run).wait
  {
    hide IsRun, After;
    OneMore(es, ConnHandled(t));
    run := es + [ConnHandled(t)];
  }

  lemma TaskFrees(es: seq<Event>, t: Token) returns (run: seq<Event>)
    requires IsRun(es) && t in After(es).tasks
    ensures es <= run && IsRun(run) && t.id !in After(run).wait
  {
    hide IsRun, After;
    OneMore(es, TaskConnects(t));
    run := ConnectionFrees(es + [TaskConnects(t)], t);
  }

  lemma {:induction false} MapFrees(es: seq<Event>, i: nat, t: Token) returns (run: seq<Event>)
    requires IsRun(es) && i < |After(es).toClient| && After(es).toClient[i] == Map(t)
    ensures es <= run && IsRun(run) && t.id !in After(run).wait
    decreases i
  {
    hide IsRun, After;
    OneMore(es, ClientReceives);
    if i == 0 {
      run := TaskFrees(es + [ClientReceives], t);
    } else {
      run := MapFrees(es + [ClientReceives], i - 1, t);
    }
  }

  lemma UnsentFrees(es: seq<Event>, t: Token) returns (run: seq<Event>)
    requires IsRun(es) && t in After(es).unsent
    ensures es <= run && IsRun(run) && t.id !in After(run).wait
  {
    hide IsRun, After;
    RunKeepsWires(es);
    assert Unsent(After(es), t);
    OneMore(es, SendMap(t.tag));
    run := MapFrees(es + [SendMap(t.tag)], |After(es).toClient|, t);
  }

  /** A MapError frees its slot when it is its turn, if the slot is not free by then. */
  lemma {:induction false} MapErrorFrees(es: seq<Event>, i: nat, t: Token) returns (run: seq<Event>)
    requires IsRun(es) && i < |After(es).toServer| && After(es).toServer[i] == MapError(t)
    ensures es <= run && IsRun(run) && t.id !in After(run).wait
    decreases i
  {
    hide IsRun, After;
    OneMore(es, ServerReceives);
    ServerShifts(After(es));
    if i == 0 {
      MapErrorAtHead(After(es), t);
      run := es + [ServerReceives];
    } else {
      run := MapErrorFrees(es + [ServerReceives], i - 1, t);
    }
  }

  lemma ServerShifts(s: State)
    requires |s.toServer| > 0
    ensures ServerStep(s).toServer == s.toServer[1..]
  {
  }

  lemma MapErrorAtHead(s: State, t: Token)
    requires |s.toServer| > 0 && s.toServer[0] == MapError(t)
    ensures t.id !in ServerStep(s).wait
  {
  }

  lemma {:induction false} OnWireSomewhere(ms: seq<Msg>, t: Token) returns (i: nat)
    requires OnWire(ms, t) > 0
    ensures i < |ms| && !ms[i].Ping? && ms[i].t == t
  {
    var last := |ms| - 1;
    if !ms[last].Ping? && ms[last].t == t {
      i := last;
    } else {
      i := OnWireSomewhere(ms[..last], t);
    }
  }

  lemma CarriedFrees(es: seq<Event>, t: Token) returns (run: seq<Event>)
    requires IsRun(es) && Carried(After(es), t) > 0
    ensures es <= run && IsRun(run) && t.id !in After(run).wait
  {
    hide IsRun, After, OnWire;
    RunKeepsWires(es);
    var s := After(es);
    if t in s.conns {
      run := ConnectionFrees(es, t);
    } else if t in s.tasks {
      run := TaskFrees(es, t);
    } else if t in s.unsent {
      run := UnsentFrees(es, t);
    } else if OnWire(s.toClient, t) > 0 {
      var i := OnWireSomewhere(s.toClient, t);
      run := MapFrees(es, i, t);
    } else {
      var i := OnWireSomewhere(s.toServer, t);
      run := MapErrorFrees(es, i, t);
    }
  }

  /**
   A slot that is taken can still become free, whatever the run so far, if and only if something
   carries its id.
   */
  lemma FreedIffCarried(es: seq<Event>, id: u32)
    requires IsRun(es) && id in After(es).wait
    ensures (exists more :: IsRun(es + more) && id !in After(es + more).wait) <==> !Orphaned(After(es), id)
  {
    if Orphaned(After(es), id) {
      forall more | IsRun(es + more) ensures id in After(es + more).wait {
        OrphanStaysForEver(es, more, id);
      }
    } else {
      var t: Token :| t.id == id && Carried(After(es), t) != 0;
      var run := CarriedFrees(es, t);
      assert run == es + run[|es|..];
    }
  }

  // ---- What loses a slot ----

  /** A slot is taken for a visitor that is turned away, or the last carrier of its id is lost. */
  ghost predicate Loses(s: State, e: Event, id: u32) {
    match e
    case PeerKnown(_, Closed, taken) => taken == id
    case VisitorGivesUp(v) => v in s.visits && s.visits[v].Routed? && s.visits[v].t in s.unsent && s.visits[v].t.id == id
    case TaskDies(t) => t.id == id
    case ConnDies(t) => t.id == id
    case _ => false
  }

  /** In every run, these are exactly the steps that lose a slot. */
  lemma LostIff(es: seq<Event>, e: Event, id: u32)
    requires IsRun(es) && Enabled(After(es), e) && !Orphaned(After(es), id)
    ensures Orphaned(Step(After(es), e), id) <==> Loses(After(es), e, id)
  {
    RunKeepsInv(es);
    RunKeepsWires(es);
    if Loses(After(es), e, id) {
      LossOrphans(After(es), e, id);
    } else {
      OthersKeep(After(es), e, id);
    }
  }

  lemma LossOrphans(s: State, e: Event, id: u32)
    requires Inv(s) && Enabled(s, e) && Loses(s, e, id)
    ensures Orphaned(Step(s, e), id)
  {
    hide OnWire, TasksSound;
    var s' := Step(s, e);
    if e.PeerKnown? {
      FreshIdUncarried(s, id);
    } else {
      var u := if e.VisitorGivesUp? then s.visits[e.v].t else e.t;
      assert Carried(s, u) == 1 && Slotted(s, u);
    }
    forall t: Token | t.id == id ensures Carried(s', t) == 0 {
      StepCarries(s, e, t);
      assert Carried(s, t) <= 1;
    }
  }

  lemma OthersKeep(s: State, e: Event, id: u32)
    requires Inv(s) && WiresSound(s) && Enabled(s, e) && !Orphaned(s, id) && !Loses(s, e, id)
    ensures !Orphaned(Step(s, e), id)
  {
    hide OnWire, Inv, CarriersSound, TasksSound, WiresSound, EndVisit, Cyclic.IsNextFree;
    var s' := Step(s, e);
    if id in s.wait {
      var t: Token :| t.id == id && Carried(s, t) != 0;
      CarrierKept(s, e, t);
    } else if id in s'.wait {
      NewSlotIsCarried(s, e, id);
    }
  }

  lemma NewSlotIsCarried(s: State, e: Event, id: u32)
    requires Enabled(s, e) && id !in s.wait && id in Step(s, e).wait && !Loses(s, e, id)
    ensures exists t: Token :: t.id == id && Carried(Step(s, e), t) != 0
  {
    hide OnWire, Cyclic.IsNextFree;
    assert e.PeerKnown? && e.peer.Route?;
    var t := Token(id, e.v, e.peer.dst);
    assert t in Step(s, e).unsent;
    assert Carried(Step(s, e), t) != 0;
  }

  /** A step that loses no slot of this id leaves the carrier where it is, moves it on, or frees the slot. */
  lemma CarrierKept(s: State, e: Event, t: Token)
    requires Inv(s) && WiresSound(s) && Enabled(s, e) && Carried(s, t) > 0 && !Loses(s, e, t.id)
    ensures t.id !in Step(s, e).wait || Carried(Step(s, e), t) > 0
  {
    hide OnWire, Inv, WiresSound, PeerStep, SendStep, ServerStep, ConnStep, ClientStep, Cyclic.IsNextFree, EndVisit;
    match e {
      case PeerKnown(v, peer, id) => PeerKeepsCarrier(s, v, peer, id, t);
      case SendMap(v) => OnWireSnoc(s.toClient, Map(s.visits[v].t), t); SendKeepsCarrier(s, v, t);
      case VisitorGivesUp(v) => GivingUpKeepsCarrier(s, v, t);
      case ClientReceives => ClientKeepsCarrier(s, t);
      case ServerReceives => ServerKeepsCarrier(s, t);
      case ConnHandled(u) => ConnKeepsCarrier(s, u, t);
      case _ => OthersKeepCarrier(s, e, t);
    }
  }

  lemma OthersKeepCarrier(s: State, e: Event, t: Token)
    requires Inv(s) && WiresSound(s) && Enabled(s, e) && Carried(s, t) > 0 && !Loses(s, e, t.id)
    requires e.ServerPings? || e.ClientPings? || e.TaskFails? || e.TaskConnects? || e.TaskDies? || e.ConnDies? || e.VisitorArrives?
    ensures t.id !in Step(s, e).wait || Carried(Step(s, e), t) > 0
  {
    hide OnWire, Inv, WiresSound, PeerStep, SendStep, ServerStep, ConnStep, ClientStep, Cyclic.IsNextFree, EndVisit;
    OnWireSnoc(s.toClient, Ping, t);
    OnWireSnoc(s.toServer, Ping, t);
    if e.TaskFails? {
      OnWireSnoc(s.toServer, MapError(e.t), t);
    }
  }

  lemma PeerKeepsCarrier(s: State, v: Tag, peer: Peer, id: u32, t: Token)
    requires v in s.visits && s.visits[v].Sniffing?
    ensures Carried(PeerStep(s, v, peer, id), t) >= Carried(s, t)
  {
    hide OnWire;
  }

  lemma SendKeepsCarrier(s: State, v: Tag, t: Token)
    requires Enabled(s, SendMap(v))
    ensures Carried(SendStep(s, v), t) == Carried(s, t)
  {
    hide OnWire;
    OnWireSnoc(s.toClient, Map(s.visits[v].t), t);
  }

  lemma GivingUpKeepsCarrier(s: State, v: Tag, t: Token)
    requires Carried(s, t) > 0 && !Loses(s, VisitorGivesUp(v), t.id)
    ensures Carried(EndVisit(s, v), t) > 0
  {
    hide OnWire;
  }

  lemma ClientKeepsCarrier(s: State, t: Token)
    requires WiresSound(s) && |s.toClient| > 0
    ensures Carried(ClientStep(s), t) == Carried(s, t)
  {
    hide OnWire;
    OnWireHead(s.toClient, t);
  }

  /** Ending the visitor of a slot drops nothing but what carries the slot's own id. */
  lemma VisitEndKeepsCarrier(s: State, s1: State, id: u32, t: Token)
    requires TasksSound(s) && id in s.wait && t.id != id && s1.visits == s.visits
    ensures Carried(EndVisit(s1, s.wait[id]), t) == Carried(s1, t)
  {
    hide OnWire;
    var v := s.wait[id];
    if v in s.visits && s.visits[v].Routed? {
      assert Slotted(s, s.visits[v].t);
    }
  }

  lemma ServerKeepsCarrier(s: State, t: Token)
    requires Inv(s) && WiresSound(s) && |s.toServer| > 0 && Carried(s, t) > 0
    ensures t.id !in ServerStep(s).wait || Carried(ServerStep(s), t) > 0
  {
    hide OnWire, TasksSound;
    OnWireHead(s.toServer, t);
    var s1 := s.(toServer := s.toServer[1..]);
    if s.toServer[0].MapError? {
      var u := s.toServer[0].t;
      OnWireHead(s.toServer, u);
      assert Carried(s, u) > 0 && Slotted(s, u);
      if u != t {
        VisitEndKeepsCarrier(s, s1.(wait := s.wait - {u.id}), u.id, t);
      }
    }
  }

  lemma ConnKeepsCarrier(s: State, u: Token, t: Token)
    requires Inv(s) && u in s.conns && Carried(s, t) > 0
    ensures t.id !in ConnStep(s, u).wait || Carried(ConnStep(s, u), t) > 0
  {
    hide OnWire, TasksSound;
    var s1 := s.(conns := s.conns - multiset{u});
    assert Carried(s, u) > 0 && Slotted(s, u);
    if u != t {
      VisitEndKeepsCarrier(s, s1.(wait := s.wait - {u.id}), u.id, t);
    }
  }
}
