/** The life of KCP sessions at a listener (src/net/kcp/mod.rs), as steps of a transition system. */
module KcpSpec {
  import opened Common

  const TIME_WAIT: nat := 30       // seconds

  /** A peer, by the hash of its address, and its conversation number. */
  datatype Key = Key(id: nat, conv: u32)

  /** The stamp is the clock, in milliseconds, at the time of death. */
  datatype Life = Active | Dead(stamp: nat)

  /** Generations count the sessions ever made, so that two sessions under one key can be told apart. */
  datatype Session = Session(gen: nat, life: Life)

  /**
   `callbacks` are the cleanup tasks that have not run, `streams` the accepted streams that have not
   been closed. The last four fields are history.
   */
  datatype State = State(
    sessions: map<Key, Session>,
    clock: nat,
    nextGen: nat,
    callbacks: map<nat, Key>,
    streams: map<nat, Key>,
    openings: seq<nat>,
    keyOf: map<nat, Key>,
    born: map<nat, nat>,
    died: map<nat, nat>
  )

  datatype Event =
    | Tick(ms: nat)
    | Packet(key: Key, accepted: bool)      // long enough to have a header; `accepted`: the session took it
    | Cleanup(gen: nat)                     // the update task of a session has ended
    | StreamClosed(gen: nat)                // a stream was closed or dropped, and the task it spawned runs

  function Init(): State {
    State(map[], 0, 0, map[], map[], [], map[], map[], map[])
  }

  /** `elapsed().as_secs() < 30`. */
  predicate Retained(s: Session, clock: nat) {
    match s.life
    case Active => true
    case Dead(stamp) => stamp <= clock ==> (clock - stamp) / 1000 < TIME_WAIT
  }

  /** Before a packet is looked at, the expired sessions of its peer are dropped. */
  function Purged(sessions: map<Key, Session>, id: nat, clock: nat): map<Key, Session> {
    map k | k in sessions && (k.id == id ==> Retained(sessions[k], clock)) :: sessions[k]
  }

  /** The session that a stream's close callback finds and closes. */
  function Closes(s: State, gen: nat): Option<nat> {
    if gen in s.streams && s.streams[gen] in s.sessions && s.sessions[s.streams[gen]].life.Active?
    then Some(s.sessions[s.streams[gen]].gen)
    else None
  }

  /** A new session, its cleanup callback, and its stream if the first packet was taken. */
  function Opened(s: State, key: Key, accepted: bool): State {
    s.(sessions := s.sessions[key := Session(s.nextGen, Active)], nextGen := s.nextGen + 1,
       callbacks := s.callbacks[s.nextGen := key],
       streams := if accepted then s.streams[s.nextGen := key] else s.streams,
       openings := if accepted then s.openings + [s.nextGen] else s.openings,
       keyOf := s.keyOf[s.nextGen := key],
       born := s.born[s.nextGen := s.clock])
  }

  function Step(s: State, e: Event): State {
    match e
    case Tick(ms) => s.(clock := s.clock + ms)
    case Packet(key, accepted) =>
      var kept := Purged(s.sessions, key.id, s.clock);
      if key in kept then s.(sessions := kept)
      else Opened(s.(sessions := kept), key, accepted)
    case Cleanup(gen) =>
      if gen !in s.callbacks then s
      else
        var key := s.callbacks[gen];
        var t := s.(callbacks := s.callbacks - {gen});
        if key !in s.sessions || s.sessions[key].life.Dead? then t
        else
          t.(sessions := s.sessions[key := s.sessions[key].(life := Dead(s.clock))],
             died := s.died[s.sessions[key].gen := s.clock])
    case StreamClosed(gen) =>
      s.(streams := s.streams - {gen})
  }

  function After(events: seq<Event>): State {
    if |events| == 0 then Init() else Step(After(events[..|events| - 1]), events[|events| - 1])
  }

  // ---- The invariant ----

  /** A generation is alive with its callback to come, or dead; once dead, it is in the table or expired. */
  ghost predicate GenOk(s: State, g: nat) {
    && g in s.keyOf && g in s.born && s.born[g] <= s.clock
    && (g in s.callbacks <==> g !in s.died)
    && (g in s.callbacks ==>
          && s.callbacks[g] == s.keyOf[g]
          && s.keyOf[g] in s.sessions && s.sessions[s.keyOf[g]] == Session(g, Active))
    && (g in s.died ==>
          && s.died[g] <= s.clock
          && (Expired(s, g) || (s.keyOf[g] in s.sessions && s.sessions[s.keyOf[g]] == Session(g, Dead(s.died[g])))))
  }

  ghost predicate Expired(s: State, g: nat)
    requires g in s.died
  {
    s.died[g] + 1000 * TIME_WAIT <= s.clock
  }

  /** What is in the table is the youngest generation of its key. */
  ghost predicate EntryOk(s: State, k: Key)
    requires k in s.sessions
  {
    var g := s.sessions[k].gen;
    && g < s.nextGen && g in s.keyOf && s.keyOf[g] == k
    && (s.sessions[k].life.Active? ==> g in s.callbacks)
    && (s.sessions[k].life.Dead? ==> g in s.died && s.sessions[k].life.stamp == s.died[g])
  }

  /** A younger session of the same key was born when the older one had been dead for the whole wait. */
  ghost predicate Apart(s: State, older: nat, younger: nat) {
    older in s.died && younger in s.born && s.died[older] + 1000 * TIME_WAIT <= s.born[younger]
  }

  ghost predicate SameKey(s: State, g: nat, h: nat) {
    g in s.keyOf && h in s.keyOf && s.keyOf[g] == s.keyOf[h]
  }

  ghost predicate Inv(s: State) {
    && (forall g: nat :: g < s.nextGen ==> GenOk(s, g))
    && (forall g: nat :: g in s.callbacks || g in s.streams || g in s.died || g in s.keyOf || g in s.born ==> g < s.nextGen)
    && (forall k :: k in s.sessions ==> EntryOk(s, k))
    && (forall g: nat, h: nat :: g < h < s.nextGen && SameKey(s, g, h) ==> Apart(s, g, h))
    && (forall g: nat :: g in s.streams ==> g in s.keyOf && s.streams[g] == s.keyOf[g])
    && OpenedOnce(s)
  }

  ghost predicate OpenedOnce(s: State) {
    && (forall i :: 0 <= i < |s.openings| ==> s.openings[i] < s.nextGen)
    && (forall i, j :: 0 <= i < j < |s.openings| ==> s.openings[i] < s.openings[j])
  }

  lemma StepKeepsInv(s: State, e: Event)
    requires Inv(s)
    ensures Inv(Step(s, e))
  {
    match e
    case Tick(_) => TickKeeps(s, e);
    case Packet(_, _) => PacketKeeps(s, e);
    case Cleanup(_) => CleanupKeeps(s, e);
    case StreamClosed(_) => StreamClosedKeeps(s, e);
  }

  lemma TickKeeps(s: State, e: Event)
    requires Inv(s) && e.Tick?
    ensures Inv(Step(s, e))
  {
    var t := Step(s, e);
    forall g: nat | g < t.nextGen ensures GenOk(t, g) {
      assert GenOk(s, g);
    }
    forall k | k in t.sessions ensures EntryOk(t, k) {
      assert EntryOk(s, k);
    }
    forall g: nat, h: nat | g < h < t.nextGen && SameKey(t, g, h)
      ensures Apart(t, g, h)
    {
      assert GenOk(s, h) && SameKey(s, g, h) && Apart(s, g, h);
    }
  }

  lemma PacketKeeps(s: State, e: Event)
    requires Inv(s) && e.Packet?
    ensures Inv(Step(s, e))
  {
    var kept := Purged(s.sessions, e.key.id, s.clock);
    var t := s.(sessions := kept);
    PurgeKeeps(s, e.key.id);
    if e.key !in kept {
      forall g: nat | g < s.nextGen && g in s.keyOf && s.keyOf[g] == e.key ensures g in s.died && Expired(s, g) {
        assert GenOk(t, g);
      }
      OpenKeeps(t, e.key, e.accepted);
    }
  }

  lemma PurgeKeeps(s: State, id: nat)
    requires Inv(s)
    ensures Inv(s.(sessions := Purged(s.sessions, id, s.clock)))
  {
    var t := s.(sessions := Purged(s.sessions, id, s.clock));
    forall g: nat | g < s.nextGen ensures GenOk(t, g) {
      assert GenOk(s, g);
    }
    forall k | k in t.sessions ensures EntryOk(t, k) {
      assert EntryOk(s, k);
    }
    forall g: nat, h: nat | g < h < t.nextGen && SameKey(t, g, h) ensures Apart(t, g, h) {
      assert SameKey(s, g, h) && Apart(s, g, h);
    }
  }

  lemma OpenKeeps(s: State, key: Key, accepted: bool)
    requires Inv(s) && key !in s.sessions
    requires forall g: nat :: g < s.nextGen && g in s.keyOf && s.keyOf[g] == key ==> g in s.died && Expired(s, g)
    ensures Inv(Opened(s, key, accepted))
  {
    var t := Opened(s, key, accepted);
    forall g: nat | g < t.nextGen ensures GenOk(t, g) {
      assert g < s.nextGen ==> GenOk(s, g);
    }
    forall k | k in t.sessions ensures EntryOk(t, k) {
      assert k in s.sessions ==> EntryOk(s, k);
    }
    forall g: nat, h: nat | g < h < t.nextGen && SameKey(t, g, h) ensures Apart(t, g, h) {
      OpenKeepsApart(s, key, accepted, g, h);
    }
  }

  lemma OpenKeepsApart(s: State, key: Key, accepted: bool, g: nat, h: nat)
    requires Inv(s) && g < h < s.nextGen + 1 && SameKey(Opened(s, key, accepted), g, h)
    requires forall g: nat :: g < s.nextGen && g in s.keyOf && s.keyOf[g] == key ==> g in s.died && Expired(s, g)
    ensures Apart(Opened(s, key, accepted), g, h)
  {
    assert GenOk(s, g);
    if h < s.nextGen {
      assert GenOk(s, h) && SameKey(s, g, h) && Apart(s, g, h);
    }
  }

  lemma CleanupKeeps(s: State, e: Event)
    requires Inv(s) && e.Cleanup?
    ensures Inv(Step(s, e))
  {
    var t := Step(s, e);
    if e.gen in s.callbacks {
      CallbackHitsItsOwn(s, e.gen);
      forall g: nat | g < t.nextGen ensures GenOk(t, g) {
        assert GenOk(s, g);
      }
      forall k | k in t.sessions ensures EntryOk(t, k) {
        assert EntryOk(s, k);
      }
      forall g: nat, h: nat | g < h < t.nextGen && SameKey(t, g, h)
        ensures Apart(t, g, h)
      {
        CleanupKeepsApart(s, e, g, h);
      }
    }
  }

  lemma CleanupKeepsApart(s: State, e: Event, g: nat, h: nat)
    requires Inv(s) && e.Cleanup? && e.gen in s.callbacks
    requires g < h < s.nextGen && SameKey(Step(s, e), g, h)
    ensures Apart(Step(s, e), g, h)
  {
    CallbackHitsItsOwn(s, e.gen);
    assert GenOk(s, g) && GenOk(s, h) && SameKey(s, g, h) && Apart(s, g, h);
  }

  lemma StreamClosedKeeps(s: State, e: Event)
    requires Inv(s) && e.StreamClosed?
    ensures Inv(Step(s, e))
  {
    var t := Step(s, e);
    forall g: nat | g < t.nextGen ensures GenOk(t, g) {
      assert GenOk(s, g);
    }
    forall k | k in t.sessions ensures EntryOk(t, k) {
      assert EntryOk(s, k);
    }
    forall g: nat, h: nat | g < h < t.nextGen && SameKey(t, g, h)
      ensures Apart(t, g, h)
    {
      assert GenOk(s, h) && SameKey(s, g, h) && Apart(s, g, h);
    }
  }

  lemma CallbackHitsItsOwn(s: State, gen: nat)
    requires Inv(s) && gen in s.callbacks
    ensures var key := s.callbacks[gen];
            && key in s.sessions && s.sessions[key] == Session(gen, Active)
            && Step(s, Cleanup(gen)).sessions == s.sessions[key := Session(gen, Dead(s.clock))]
  {
    assert GenOk(s, gen);
  }

  lemma {:induction false} RunKeepsInv(events: seq<Event>)
    ensures Inv(After(events))
  {
    if |events| > 0 {
      RunKeepsInv(events[..|events| - 1]);
      StepKeepsInv(After(events[..|events| - 1]), events[|events| - 1]);
    }
  }

  // ---- What holds in every run ----

  /** A cleanup callback kills the session it was made for, and changes no other entry of the table. */
  lemma CleanupKillsOnlyItsOwn(events: seq<Event>, gen: nat)
    requires gen in After(events).callbacks
    ensures var s, t := After(events), Step(After(events), Cleanup(gen));
            var key := s.callbacks[gen];
            && key in s.sessions && s.sessions[key] == Session(gen, Active)
            && t.sessions == s.sessions[key := Session(gen, Dead(s.clock))]
  {
    RunKeepsInv(events);
    CallbackHitsItsOwn(After(events), gen);
  }

  /** Two sessions under one key are at least 30 seconds apart, from the death of one to the birth of the next. */
  lemma TimeWaitHolds(events: seq<Event>, older: nat, younger: nat)
    requires older < younger < After(events).nextGen
    requires SameKey(After(events), older, younger)
    ensures older in After(events).died && younger in After(events).born
    ensures After(events).died[older] + 30000 <= After(events).born[younger]
  {
    RunKeepsInv(events);
    var s := After(events);
    assert GenOk(s, younger);
    assert SameKey(s, older, younger) && Apart(s, older, younger);
  }

  /** A session of this key is alive, or died less than 30 seconds ago. */
  predicate Lives(s: State, key: Key) {
    && key in s.sessions
    && match s.sessions[key].life
       case Active => true
       case Dead(stamp) => s.clock < stamp + 30000
  }

  /**
   What a packet does: it makes a session exactly if none lives under its key, and reports it exactly if
   that session accepts it; of the other sessions it drops those of the same peer that live no more.
   */
  lemma PacketMeans(s: State, key: Key, accepted: bool)
    ensures var t := Step(s, Packet(key, accepted));
            && t.nextGen == s.nextGen + (if Lives(s, key) then 0 else 1)
            && t.openings == s.openings + (if accepted && !Lives(s, key) then [s.nextGen] else [])
            && t.streams == (if accepted && !Lives(s, key) then s.streams[s.nextGen := key] else s.streams)
            && key in t.sessions
            && t.sessions[key] == (if Lives(s, key) then s.sessions[key] else Session(s.nextGen, Active))
            && (forall k :: k != key ==> (k in t.sessions <==> k in s.sessions && (k.id == key.id ==> Lives(s, k))))
            && (forall k :: k != key && k in t.sessions ==> t.sessions[k] == s.sessions[k])
  {
    forall k | k in s.sessions ensures Lives(s, k) <==> Retained(s.sessions[k], s.clock) {
    }
  }

  lemma OpeningsGrow(s: State, e: Event)
    ensures s.openings <= Step(s, e).openings && s.nextGen <= Step(s, e).nextGen
    ensures forall g: nat :: g in Step(s, e).openings && g < s.nextGen ==> g in s.openings
  {
  }

  /** In a run only younger sessions are reported later, and none is taken back. */
  lemma {:induction false} RunsGrow(events: seq<Event>, more: seq<Event>)
    ensures After(events).openings <= After(events + more).openings
    ensures After(events).nextGen <= After(events + more).nextGen
    ensures forall g: nat :: g in After(events + more).openings && g < After(events).nextGen ==> g in After(events).openings
  {
    if |more| == 0 {
      assert events + more == events;
    } else {
      hide Step;
      var init, e := more[..|more| - 1], more[|more| - 1];
      RunsGrow(events, init);
      var s := After(events + init);
      assert (events + more)[..|events + more| - 1] == events + init && (events + more)[|events + more| - 1] == e;
      assert After(events + more) == Step(s, e);
      OpeningsGrow(s, e);
    }
  }

  /** In every run the session that a packet makes is reported, then or ever, exactly if that packet was accepted. */
  lemma OpenedIffAccepted(events: seq<Event>, key: Key, accepted: bool, more: seq<Event>)
    requires !Lives(After(events), key)
    ensures var all := events + [Packet(key, accepted)] + more;
            After(events).nextGen in After(all).openings <==> accepted
  {
    var s, upTo := After(events), events + [Packet(key, accepted)];
    assert upTo[..|events|] == events;
    PacketMeans(s, key, accepted);
    RunsGrow(upTo, more);
    RunKeepsInv(events);
    var t := After(upTo);
    if accepted {
      assert t.openings[|s.openings|] == s.nextGen;
    } else {
      assert t.openings == s.openings;
    }
  }

  /** No session is reported as opened twice. */
  lemma OpenReportedOnce(events: seq<Event>, i: nat, j: nat)
    requires i < j < |After(events).openings|
    ensures After(events).openings[i] != After(events).openings[j]
  {
    RunKeepsInv(events);
  }

  /** While its session lives, the close of a stream can only reach that session. */
  lemma LiveStreamClosesItsOwn(events: seq<Event>, gen: nat)
    requires gen in After(events).streams && gen in After(events).callbacks
    ensures Closes(After(events), gen) == Some(gen)
  {
    RunKeepsInv(events);
    assert GenOk(After(events), gen);
  }

  /**
   The close of a stream reaches another session exactly if its own has died and a new one lives
   under the key; that takes at least 30 seconds after the death.
   */
  lemma CloseReachesAnotherIff(events: seq<Event>, gen: nat)
    requires gen in After(events).streams
    ensures var s := After(events);
            (Closes(s, gen).Some? && Closes(s, gen) != Some(gen)) <==>
            (gen in s.died && s.streams[gen] in s.sessions && s.sessions[s.streams[gen]].life.Active?)
    ensures var s := After(events);
            Closes(s, gen).Some? && Closes(s, gen) != Some(gen) ==> gen in s.died && s.died[gen] + 30000 <= s.clock
  {
    RunKeepsInv(events);
    var s := After(events);
    assert GenOk(s, gen);
    if s.streams[gen] in s.sessions {
      assert EntryOk(s, s.streams[gen]);
    }
  }

  /** And it does happen: a stream kept for long after its session died closes the next session. */
  lemma StaleCloseReachesTheNext(k: Key)
    ensures var s := After([Packet(k, true), Cleanup(0), Tick(30000), Packet(k, true)]);
            0 in s.streams && Closes(s, 0) == Some(1)
  {
    var e0, e1, e2, e3 := Packet(k, true), Cleanup(0), Tick(30000), Packet(k, true);
    assert [e0, e1, e2, e3][..3] == [e0, e1, e2] && [e0, e1, e2][..2] == [e0, e1] && [e0, e1][..1] == [e0] && [e0][..0] == [];
    assert After([]) == Init();
    var s1 := After([e0]);
    assert After([e0]) == Step(After([e0][..|[e0]| - 1]), [e0][|[e0]| - 1]);
    assert s1 == Step(Init(), e0);
    assert Purged(map[], k.id, 0) == map[];
    assert s1.sessions == map[k := Session(0, Active)];
    var s2 := After([e0, e1]);
    assert s2.sessions == map[k := Session(0, Dead(0))];
    var s3 := After([e0, e1, e2]);
    assert s3.sessions == s2.sessions && s3.clock == 30000;
    assert !Retained(s3.sessions[k], s3.clock);
    assert Purged(s3.sessions, k.id, s3.clock) == map[];
  }
}
