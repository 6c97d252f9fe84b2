/** The server's side of the rendezvous, over its waiting list (src/net/penetrate/server.rs). */
module Server {
  import opened Common
  import MQueue
  import opened Rendezvous

  class Penetrate {
    const mqueue: MQueue.MQueue<Tag> // a channel is named by the visitor that waits on it
    var visits: map<Tag, Visit>      // the live tasks of visitors
    ghost var state: State

    ghost predicate Valid()
      reads this, mqueue
    {
      mqueue.waitList == state.wait && mqueue.identify == state.ident && visits == state.visits
    }

    constructor ()
      ensures Valid() && state == Init() && fresh(mqueue)
    {
      mqueue := new MQueue.MQueue();
      visits, state := map[], Init();
    }

    /** The mock has answered for `v`: whatever it answered, a slot is taken first. */
    method PeerAnswered(v: Tag, peer: Peer) returns (id: u32)
      requires Valid() && v in visits && visits[v].Sniffing? && |mqueue.waitList| < U32_LIMIT
      modifies this, mqueue
      ensures Valid()
      ensures Enabled(old(state), PeerKnown(v, peer, id)) && state == Step(old(state), PeerKnown(v, peer, id))
    {
      ghost var probes;
      id, probes := mqueue.Push(v);
      match peer {
        case Closed => visits := visits - {v};
        case Route(dst) => visits := visits[v := Routed(Token(id, v, dst))];
      }
      state := Step(state, PeerKnown(v, peer, id));
    }

    /** A packet from the control connection: a MapError drops the slot, which ends its visitor. */
    method ControlReceived(m: Msg)
      requires Valid() && |state.toServer| > 0 && state.toServer[0] == m
      modifies this, mqueue
      ensures Valid() && state == Step(old(state), ServerReceives)
    {
      if m.MapError? {
        var sender := mqueue.Remove(m.t.id);
        if sender.Some? {
          visits := visits - {sender.value};
        }
      }
      state := Step(state, ServerReceives);
    }

    /** The first packet of a data connection names a slot; whoever waits there gets the connection. */
    method ConnectionNamed(t: Token) returns (handed: Option<Tag>)
      requires Valid() && t in state.conns
      modifies this, mqueue
      ensures Valid() && state == Step(old(state), ConnHandled(t))
      ensures state.log == old(state).log + (if handed.Some? then [Pairing(handed.value, t)] else [])
    {
      handed := None;
      var sender := mqueue.Remove(t.id);
      if sender.Some? && sender.value in visits {
        handed := sender;
        visits := visits - {sender.value};
      }
      state := Step(state, ConnHandled(t));
    }
  }
}
