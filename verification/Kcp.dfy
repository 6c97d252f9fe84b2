/** KCP listeners, connectors and streams (src/net/kcp/mod.rs, src/net/kcp/stream.rs). */
module Kcp {
  import opened Common
  import opened Cyclic
  import Buffer
  import AsyncIo
  import opened KcpSpec

  /**
   What the socket delivers. A datagram without a whole header is skipped; `replied` says whether a
   reply would get out, should the session turn out to be dead.
   */
  datatype Datagram = Short | Whole(key: Key, accepted: bool, replied: bool) | Broken

  /** The table of a listener, without its division by peers. */
  function Flat(m: map<nat, map<u32, Session>>): map<Key, Session> {
    map id, conv | id in m && conv in m[id] :: Key(id, conv) := m[id][conv]
  }

  /** `retain`. */
  function Kept(own: map<u32, Session>, clock: nat): map<u32, Session> {
    map c: u32 | c in own && Retained(own[c], clock) :: own[c]
  }

  function Inserted(m: map<nat, map<u32, Session>>, key: Key, session: Session): (r: map<nat, map<u32, Session>>)
    requires key.id in m
    ensures r.Keys == m.Keys && key.conv in r[key.id] && r[key.id][key.conv] == session
  {
    var own: map<u32, Session> := m[key.id];
    var conv: u32 := key.conv;
    var updated: map<u32, Session> := map c: u32 | c in own.Keys + {conv} :: if c == conv then session else own[c];
    m[key.id := updated]
  }

  function Events(inbox: seq<Datagram>): seq<Event> {
    if |inbox| == 0 then []
    else
      var d := inbox[|inbox| - 1];
      Events(inbox[..|inbox| - 1]) + if d.Whole? then [Packet(d.key, d.accepted)] else []
  }

  function Steps(s: State, events: seq<Event>): State {
    if |events| == 0 then s else Step(Steps(s, events[..|events| - 1]), events[|events| - 1])
  }

  /** The packet is for a session that has died and is still in the table. */
  ghost predicate Refuses(s: State, key: Key) {
    Lives(s, key) && s.sessions[key].life.Dead?
  }

  /** The datagram ends the receiving future: the socket fails, or the reply to a dead session does. */
  ghost predicate Ends(s: State, d: Datagram) {
    d.Broken? || (d.Whole? && !d.replied && Refuses(s, d.key))
  }

  /** The datagram makes a session that accepts it. */
  ghost predicate Opens(s: State, d: Datagram) {
    d.Whole? && d.accepted && !Lives(s, d.key)
  }

  /** None of the first `n` datagrams does, each seen in the state that those before it leave. */
  ghost predicate NoneOpens(s: State, inbox: seq<Datagram>, n: nat)
    requires n <= |inbox|
  {
    forall i :: 0 <= i < n ==> !Opens(Steps(s, Events(inbox[..i])), inbox[i])
  }

  /** None of the first `n` datagrams ends it, each seen in the state that those before it leave. */
  ghost predicate NoneEnds(s: State, inbox: seq<Datagram>, n: nat)
    requires n <= |inbox|
  {
    forall i :: 0 <= i < n ==> !Ends(Steps(s, Events(inbox[..i])), inbox[i])
  }

  /** What can happen to a listener: a datagram, a callback of a session or of a stream, or nothing for a while. */
  datatype Turn =
    | Receives(key: Key, accepted: bool)
    | CleansUp(gen: nat, key: Key)
    | Drops(gen: nat, key: Key)
    | Waits(ms: nat)

  function EventOf(t: Turn): Event {
    match t
    case Receives(key, accepted) => Packet(key, accepted)
    case CleansUp(gen, _) => Cleanup(gen)
    case Drops(gen, _) => StreamClosed(gen)
    case Waits(ms) => Tick(ms)
  }

  function EventsOf(turns: seq<Turn>): seq<Event> {
    if |turns| == 0 then [] else EventsOf(turns[..|turns| - 1]) + [EventOf(turns[|turns| - 1])]
  }

  /** A callback is there to be run, once, and holds the key that its session was made with. */
  ghost predicate CanHappen(s: State, t: Turn) {
    match t
    case CleansUp(gen, key) => gen in s.callbacks && s.callbacks[gen] == key
    case Drops(gen, key) => gen in s.streams && s.streams[gen] == key
    case _ => true
  }

  ghost predicate Possible(s: State, turns: seq<Turn>) {
    forall i :: 0 <= i < |turns| ==> CanHappen(Steps(s, EventsOf(turns[..i])), turns[i])
  }

  lemma StepsOfOneTurn(s: State, turns: seq<Turn>, k: nat)
    requires k < |turns|
    ensures Steps(s, EventsOf(turns[..k + 1])) == Step(Steps(s, EventsOf(turns[..k])), EventOf(turns[k]))
  {
    assert turns[..k + 1][..k] == turns[..k];
    var es := EventsOf(turns[..k]);
    assert (es + [EventOf(turns[k])])[..|es|] == es;
  }

  class KcpListener {
    var manager: map<nat, map<u32, Session>>
    var clock: nat
    var nextGen: nat
    var accepting: bool              // the one future that receives datagrams is still there
    ghost var state: State

    ghost predicate Valid()
      reads this
    {
      Flat(manager) == state.sessions && clock == state.clock && nextGen == state.nextGen
    }

    constructor ()
      ensures Valid() && state == Init() && accepting
    {
      manager, clock, nextGen, accepting, state := map[], 0, 0, true, Init();
    }

    /** One datagram with a header: the generation it opens, and whether it is told that its session is dead. */
    method OnPacket(key: Key, accepted: bool) returns (newSession: Option<nat>, refused: bool)
      requires Valid()
      modifies this`manager, this`nextGen, this`state
      ensures Valid() && state == Step(old(state), Packet(key, accepted))
      ensures refused ==> newSession.None?
      ensures newSession.Some? <==> accepted && !Lives(old(state), key)
      ensures newSession.Some? ==> state.openings == old(state.openings) + [newSession.value] && newSession.value == old(nextGen)
      ensures newSession.None? ==> state.openings == old(state.openings)
      ensures refused <==> Refuses(old(state), key)
    {
      hide Flat, Purged, Inserted, Kept;
      PurgedAt(state, key);
      var id, conv := key.id, key.conv;
      ghost var before := manager;
      manager := manager[id := Kept(if id in manager then manager[id] else map[], clock)];
      PurgeIsFlat(before, id, clock, manager);
      FlatAt(manager, key);
      var newKcp := conv !in manager[id];
      ghost var kept := state.(sessions := Flat(manager));
      if newKcp {
        var session := Session(nextGen, Active);
        InsertIsFlat(manager, key, session);
        manager := Inserted(manager, key, session);
        FlatAt(manager, key);
        nextGen := nextGen + 1;
      }
      state := if newKcp then Opened(kept, key, accepted) else kept;
      newSession, refused := None, false;
      match manager[id][conv].life {
        case Dead(_) =>
          refused := true;
        case Active =>
          if accepted && newKcp {
            newSession := Some(manager[id][conv].gen);
            assert |state.openings| == |old(state.openings)| + 1;
          }
      }
    }

    /** The cleanup callback of the session `gen`: whatever is under its key becomes dead, once. */
    method OnCleanup(gen: nat, key: Key)
      requires Valid() && gen in state.callbacks && state.callbacks[gen] == key
      modifies this`manager, this`state
      ensures Valid() && state == Step(old(state), Cleanup(gen))
    {
      hide Flat, Inserted;
      FlatAt(manager, key);
      if key.id in manager && key.conv in manager[key.id] {
        var session := manager[key.id][key.conv];
        var dead := if session.life.Dead? then session else session.(life := Dead(clock));
        InsertIsFlat(manager, key, dead);
        manager := Inserted(manager, key, dead);
      }
      state := Step(state, Cleanup(gen));
    }

    /** The close callback of the stream `gen`: closes the session that is under its key now, if it is active. */
    method OnStreamClosed(gen: nat, key: Key) returns (closed: Option<nat>)
      requires Valid() && gen in state.streams && state.streams[gen] == key
      modifies this`state
      ensures Valid() && state == Step(old(state), StreamClosed(gen)) && closed == Closes(old(state), gen)
    {
      hide Flat;
      FlatAt(manager, key);
      closed := None;
      if key.id in manager && key.conv in manager[key.id] {
        var session := manager[key.id][key.conv];
        if session.life.Active? {
          closed := Some(session.gen);
        }
      }
      state := Step(state, StreamClosed(gen));
    }

    method Pass(ms: nat)
      requires Valid()
      modifies this`clock, this`state
      ensures Valid() && state == Step(old(state), Tick(ms))
    {
      clock := clock + ms;
      state := Step(state, Tick(ms));
    }

    /**
     Datagrams, callbacks and time in any order: the nested tables go through the states of the
     transition system, keep its invariant, and report the sessions it opens, each once.
     */
    method Run(turns: seq<Turn>) returns (reported: seq<nat>)
      requires Valid() && Inv(state) && Possible(state, turns)
      modifies this`manager, this`clock, this`nextGen, this`state
      ensures Valid() && Inv(state) && state == Steps(old(state), EventsOf(turns))
      ensures state.openings == old(state.openings) + reported
    {
      hide Step, Steps, EventsOf, Flat, Inv, Refuses;
      reported := [];
      NoTurns(state, turns);
      for i := 0 to |turns|
        invariant Valid() && Inv(state) && state == Steps(old(state), EventsOf(turns[..i]))
        invariant state.openings == old(state.openings) + reported
      {
        StepsOfOneTurn(old(state), turns, i);
        StepKeepsInv(state, EventOf(turns[i]));
        OnlyPacketsOpen(state, EventOf(turns[i]));
        match turns[i] {
          case Receives(key, accepted) =>
            var stream, _ := OnPacket(key, accepted);
            reported := if stream.Some? then reported + [stream.value] else reported;
          case CleansUp(gen, key) => OnCleanup(gen, key);
          case Drops(gen, key) =>
            var _ := OnStreamClosed(gen, key);
          case Waits(ms) => Pass(ms);
        }
      }
      assert turns[..|turns|] == turns;
    }

    /** Polls the receiving future on what has arrived: until a session opens, nothing is left, or the socket fails. */
    method PollAccept(inbox: seq<Datagram>) returns (stream: Option<nat>, used: nat)
      requires Valid()
      modifies this`manager, this`nextGen, this`state, this`accepting
      ensures Valid() && used <= |inbox|
      ensures state == Steps(old(state), Events(inbox[..used]))
      ensures stream.Some? ==> state.openings == old(state.openings) + [stream.value]
      ensures stream.None? ==> state.openings == old(state.openings) && NoneOpens(old(state), inbox, used)
      ensures stream.Some? ==>
                && used > 0 && NoneOpens(old(state), inbox, used - 1)
                && Opens(Steps(old(state), Events(inbox[..used - 1])), inbox[used - 1])
      ensures stream.None? && accepting ==> used == |inbox|
      ensures accepting <==> old(accepting) && NoneEnds(old(state), inbox, used)
      ensures !old(accepting) ==> used == 0
    {
      hide Step, Steps, Events, Flat, Refuses, Lives;
      used, stream := 0, None;
      StepsOfNone(state, inbox);
      assert inbox[..0] == [];
      while accepting && used < |inbox|
        invariant Valid() && used <= |inbox| && stream.None? && (!accepting ==> old(!accepting))
        invariant state == Steps(old(state), Events(inbox[..used]))
        invariant state.openings == old(state.openings)
        invariant accepting <==> old(accepting) && NoneEnds(old(state), inbox, used)
        invariant NoneOpens(old(state), inbox, used)
        invariant !old(accepting) ==> used == 0
        decreases |inbox| - used
      {
        var d := inbox[used];
        StepsOfOneMore(old(state), inbox, used);
        NoneEndsMore(old(state), inbox, used);
        used := used + 1;
        match d {
          case Short =>
          case Broken =>
            accepting := false;
            return;
          case Whole(key, accepted, replied) =>
            var refused;
            stream, refused := OnPacket(key, accepted);
            if refused && !replied {
              accepting := false;
              return;
            }
            if stream.Some? {
              return;
            }
        }
      }
    }
  }

  lemma PurgedAt(s: State, key: Key)
    ensures key in Purged(s.sessions, key.id, s.clock) <==> Lives(s, key)
    ensures Lives(s, key) ==> Purged(s.sessions, key.id, s.clock)[key] == s.sessions[key]
  {
  }

  lemma NoTurns(s: State, turns: seq<Turn>)
    ensures Steps(s, EventsOf(turns[..0])) == s
  {
  }

  /** Only a packet opens a session. */
  lemma OnlyPacketsOpen(s: State, e: Event)
    ensures !e.Packet? ==> Step(s, e).openings == s.openings
  {
  }

  lemma NoneEndsMore(s: State, inbox: seq<Datagram>, n: nat)
    requires n < |inbox|
    ensures NoneEnds(s, inbox, n + 1) <==> NoneEnds(s, inbox, n) && !Ends(Steps(s, Events(inbox[..n])), inbox[n])
  {
  }

  lemma StepsOfNone(s: State, inbox: seq<Datagram>)
    ensures Steps(s, Events(inbox[..0])) == s
  {
  }

  lemma StepsOfOneMore(s: State, inbox: seq<Datagram>, k: nat)
    requires k < |inbox|
    ensures Steps(s, Events(inbox[..k + 1])) ==
              if inbox[k].Whole? then Step(Steps(s, Events(inbox[..k])), Packet(inbox[k].key, inbox[k].accepted))
              else Steps(s, Events(inbox[..k]))
  {
    assert inbox[..k + 1][..k] == inbox[..k];
    var es := Events(inbox[..k]);
    if inbox[k].Whole? {
      var e := Packet(inbox[k].key, inbox[k].accepted);
      assert (es + [e])[..|es|] == es;
    } else {
      assert es + [] == es;
    }
  }

  lemma FlatAt(m: map<nat, map<u32, Session>>, key: Key)
    ensures key in Flat(m) <==> key.id in m && key.conv in m[key.id]
    ensures key in Flat(m) ==> Flat(m)[key] == m[key.id][key.conv]
  {
    assert key == Key(key.id, key.conv);
  }

  lemma PurgeIsFlat(m: map<nat, map<u32, Session>>, id: nat, clock: nat, after: map<nat, map<u32, Session>>)
    requires var own := if id in m then m[id] else map[];
             after == m[id := Kept(own, clock)]
    ensures Flat(after) == Purged(Flat(m), id, clock)
  {
    hide Flat;
    var a, b := Flat(after), Purged(Flat(m), id, clock);
    forall k: Key ensures k in a <==> k in b ensures k in a ==> a[k] == b[k] {
      FlatAt(m, k);
      FlatAt(after, k);
    }
  }

  lemma InsertIsFlat(m: map<nat, map<u32, Session>>, key: Key, session: Session)
    requires key.id in m
    ensures Flat(Inserted(m, key, session)) == Flat(m)[key := session]
  {
    hide Flat;
    var m2 := Inserted(m, key, session);
    var a, b := Flat(m2), Flat(m)[key := session];
    forall k: Key ensures k in a <==> k in b ensures k in a ==> a[k] == b[k] {
      FlatAt(m, k);
      FlatAt(m2, k);
    }
  }

  lemma SplitFront(m: Bytes, n: nat, rest: Bytes)
    requires n <= |m|
    ensures (m + rest)[..n] == m[..n] && (m + rest)[n..] == m[n..] + rest
    ensures n == |m| ==> m[..n] == m && m[n..] + rest == rest
  {
  }

  // ---- Connecting ----

  /** Every conversation number is taken. */
  ghost predicate AllTaken(table: map<u32, Session>) {
    forall x: u32 :: x in table
  }

  class KcpConnector {
    var sessions: map<u32, Session>
    var increment: u32
    var clock: nat
    var nextGen: nat                 // sessions ever made

    ghost predicate Valid()
      reads this
    {
      forall c :: c in sessions ==> sessions[c].gen < nextGen
    }

    constructor ()
      ensures Valid() && sessions == map[] && increment == 1
    {
      sessions, increment, clock, nextGen := map[], 1, 0, 0;
    }

    /** The first free conversation number from the last one on, or an error when there is none. */
    method Allocate() returns (r: Result<u32>)
      modifies this`increment
      ensures r.Ok? ==> IsNextFree(sessions.Keys, old(increment), r.value) && r.value !in sessions && increment == r.value
      ensures r.Err? ==> r.error == NoMoreConv && increment == old(increment)
      ensures r.Err? <==> AllTaken(sessions)
    {
      var conv := increment;
      var nextConv := conv;
      ghost var taken, k: nat := sessions.Keys, 0;
      while true
        invariant increment == nextConv == At(conv, k) && k < 0x1_0000_0000
        invariant TakenBefore(taken, conv, k)
        decreases 0x1_0000_0000 - k
      {
        if nextConv !in sessions {
          assert FreeAfter(taken, conv, k);
          return Ok(nextConv);
        }
        SuccIsNextProbe(conv, k);
        increment := Succ(increment);
        nextConv := increment;
        k := k + 1;
        assert TakenBefore(taken, conv, k);
        if nextConv == conv {
          BackAtStart(conv, k);
          FullTurn(taken, conv);
          return Err(NoMoreConv);
        }
        NotYetBack(conv, k);
      }
    }

    /** The table is locked again: whatever is under the number is replaced. */
    method Insert(conv: u32) returns (gen: nat)
      requires Valid()
      modifies this`sessions, this`nextGen
      ensures Valid() && gen == old(nextGen) && nextGen == gen + 1
      ensures sessions == old(sessions)[conv := Session(gen, Active)]
    {
      gen := nextGen;
      sessions := sessions[conv := Session(gen, Active)];
      nextGen := nextGen + 1;
    }

    /** Allocation and insertion as one step. */
    method Connect() returns (r: Result<u32>)
      requires Valid()
      modifies this`increment, this`sessions, this`nextGen
      ensures Valid()
      ensures r.Ok? ==>
                && IsNextFree(old(sessions).Keys, old(increment), r.value) && r.value !in old(sessions)
                && sessions == old(sessions)[r.value := Session(old(nextGen), Active)] && increment == r.value
      ensures r.Err? ==> r.error == NoMoreConv && sessions == old(sessions)
      ensures r.Err? <==> AllTaken(old(sessions))
    {
      r := Allocate();
      if r.Ok? {
        var gen := Insert(r.value);
      }
    }

    /** The cleanup callback made for a number: whatever is under it becomes dead. */
    method OnCleanup(conv: u32)
      requires Valid()
      modifies this`sessions
      ensures Valid() && sessions.Keys == old(sessions).Keys
      ensures forall c :: c in sessions && c != conv ==> sessions[c] == old(sessions)[c]
      ensures conv in sessions ==>
                var s := old(sessions)[conv];
                sessions[conv] == if s.life.Dead? then s else Session(s.gen, Dead(clock))
    {
      if conv in sessions {
        var s: Session := sessions[conv];
        if s.life.Active? {
          sessions := sessions[conv := Session(s.gen, Dead(clock))];
        }
      }
    }

    /**
     The table is unlocked between an allocation and its insertion. Whatever happens to it in between,
     a second allocation that then follows the first gives the same number if and only if that number
     is free in the table it finds.
     */
    method AllocateTwice(between: map<u32, Session>) returns (a: Result<u32>, b: Result<u32>)
      modifies this`increment, this`sessions
      ensures sessions == between
      ensures a.Ok? ==> (b == a <==> a.value !in between)
      ensures a.Ok? ==> a.value !in old(sessions)
      ensures a.Err? ==> a.error == NoMoreConv && AllTaken(old(sessions))
      ensures b.Ok? ==> b.value !in between
      ensures b.Err? ==> b.error == NoMoreConv && AllTaken(between)
    {
      a := Allocate();
      sessions := between;
      b := Allocate();
      if a.Ok? && b.Ok? {
        SameNumberIff(between.Keys, a.value, b.value);
      }
    }

    /**
     Two connects of which the second allocates before the first inserts: both have the same number,
     the second insertion replaces the session of the first, which is then nowhere in the table, and the
     cleanup of the first kills the session of the second.
     */
    method ConnectOverlapped() returns (a: Result<u32>, b: Result<u32>, first: nat, second: nat)
      requires Valid()
      modifies this`increment, this`sessions, this`nextGen
      ensures Valid() && a == b
      ensures a.Ok? ==>
                && first != second && (forall c :: c in sessions ==> sessions[c].gen != first)
                && sessions == old(sessions)[a.value := Session(second, Dead(clock))]
    {
      a, b := AllocateTwice(sessions);
      first, second := nextGen, nextGen + 1;
      if a.Ok? {
        var g1 := Insert(a.value);
        var g2 := Insert(b.value);
        ghost var table := sessions;
        assert table[a.value] == Session(second, Active);
        OnCleanup(a.value);
        assert sessions == table[a.value := Session(second, Dead(clock))];
      }
    }
  }

  /** The number after `a` in a table that is searched from `a` is `a` exactly if `a` is free. */
  lemma SameNumberIff(taken: set<u32>, a: u32, b: u32)
    requires IsNextFree(taken, a, b)
    ensures b == a <==> a !in taken
  {
    var k: nat :| FreeAfter(taken, a, k) && b == At(a, k);
    assert At(a, 0) == a;
    if a !in taken {
      assert k == 0;
    }
  }

  lemma BackAtStart(start: u32, k: nat)
    requires 0 < k <= 0x1_0000_0000 && At(start, k) == start
    ensures k == 0x1_0000_0000
  {
  }

  lemma NotYetBack(start: u32, k: nat)
    requires 0 < k <= 0x1_0000_0000 && At(start, k) != start
    ensures k < 0x1_0000_0000
  {
  }

  // ---- Reading ----

  /** The protocol below a stream: complete messages that wait to be received. */
  class Queue {
    var messages: seq<Bytes>
    constructor ()
      ensures messages == []
    {
      messages := [];
    }
  }

  class KcpCore {
    const kcp: Queue
    const kbuf: Buffer.Buffer

    ghost predicate Valid()
      reads kbuf
    {
      kbuf.Valid()
    }

    constructor (kcp: Queue)
      ensures Valid() && this.kcp == kcp && kbuf.Contents() == [] && fresh(kbuf)
    {
      this.kcp := kcp;
      kbuf := new Buffer.Buffer();
    }

    /** The bytes that reads will yield, oldest first. */
    ghost function Unread(): Bytes
      reads kcp, kbuf
    {
      kbuf.Contents() + Flatten(kcp.messages)
    }

    /** `recv` of the protocol: the next message if it fits. */
    method Recv(rb: AsyncIo.ReadBuf) returns (r: Option<nat>)
      requires rb.Valid() && kcp.messages != []
      modifies kcp, rb, rb.data
      ensures rb.Valid()
      ensures var m := old(kcp.messages)[0];
              if |m| <= old(rb.Remaining()) then
                r == Some(|m|) && kcp.messages == old(kcp.messages)[1..] && rb.Filled() == old(rb.Filled()) + m
                && rb.offset == old(rb.offset) + |m|
              else
                r == None && kcp.messages == old(kcp.messages) && rb.Filled() == old(rb.Filled())
                && rb.offset == old(rb.offset)
    {
      var m := kcp.messages[0];
      if |m| <= rb.Remaining() {
        rb.Put(m);
        kcp.messages := kcp.messages[1..];
        r := Some(|m|);
      } else {
        r := None;
      }
    }

    /**
     One poll of a read. Messages become one byte stream: a message too long for the caller's
     buffer fills it, and the rest of it is kept for the next reads.
     */
    method PollRead(rb: AsyncIo.ReadBuf) returns (r: Poll<nat>)
      requires Valid() && rb.Valid()
      modifies kbuf, kcp, rb, rb.data
      ensures Valid() && rb.Valid()
      ensures r.Pending? <==> old(kbuf.Contents()) == [] && old(kcp.messages) == []
      ensures r.Pending? ==> Unread() == old(Unread()) && rb.Filled() == old(rb.Filled())
      ensures r.Ready? ==>
                && r.result.Ok? && r.result.value <= |old(Unread())| && r.result.value <= old(rb.Remaining())
                && rb.Filled() == old(rb.Filled()) + old(Unread())[..r.result.value]
                && Unread() == old(Unread())[r.result.value..]
      ensures r == Ready(Ok(0)) ==> old(rb.Remaining()) == 0 || (old(kcp.messages) != [] && old(kcp.messages)[0] == [])
    {
      hide Flatten, Buffer.Spliced;
      ghost var kept, queued := kbuf.Contents(), Flatten(kcp.messages);
      if !kbuf.IsEmpty() {
        var n := rb.TakeFrom(kbuf);
        assert (kept + queued)[..n] == kept[..n] && (kept + queued)[n..] == kept[n..] + queued;
        return Ready(Ok(n));
      }
      if kcp.messages == [] {
        return Pending;
      }
      var n := Receive(rb);
      return Ready(Ok(n));
    }

    /** The next message, or the part of it that fits; the rest is kept. */
    method Receive(rb: AsyncIo.ReadBuf) returns (n: nat)
      requires Valid() && rb.Valid() && kbuf.Contents() == [] && kcp.messages != []
      modifies kbuf, kcp, rb, rb.data
      ensures Valid() && rb.Valid()
      ensures n <= |old(kcp.messages)[0]| && n <= old(rb.Remaining()) && n <= |old(Unread())|
      ensures n == 0 ==> old(rb.Remaining()) == 0 || old(kcp.messages)[0] == []
      ensures rb.Filled() == old(rb.Filled()) + old(Unread())[..n]
      ensures Unread() == old(Unread())[n..]
    {
      hide Flatten, Buffer.Spliced;
      var m := kcp.messages[0];
      var rest := kcp.messages[1..];
      assert kcp.messages == [m] + rest;
      Buffer.FlattenCons(m, rest);
      ghost var all := Flatten(rest);
      assert Unread() == m + all;
      var got := Recv(rb);
      if got.Some? {
        n := got.value;
        assert Unread() == all;
      } else {
        kcp.messages := rest;
        n := rb.Remaining();
        rb.Put(m[..n]);
        kbuf.PushBack(m[n..]);
        assert Unread() == m[n..] + all;
      }
      SplitFront(m, n, all);
    }
  }
}
