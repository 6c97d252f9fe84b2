/**
 The bags of futures that the two ends of a penetration drain at every poll
 (`poll_generate` in src/net/penetrate/client.rs, `poll_accept` in src/net/penetrate/server.rs).
 */
module TaskBag {
  import opened Common

  /**
   `Reader` waits for the next message of the control connection; `Guard`, a heartbeat or the server's
   receiver, ends only with an error; `Closer` closes a stream; `Worker` is any other task.
   */
  datatype Kind = Reader | Guard | Worker | Closer

  /** `Next`: a message or a visitor's end that makes more tasks; `Deliver`: something for the caller; `Stop`: an error. */
  datatype Answer = NotYet | Next | Deliver | Done | Stop(error: Error)

  class Task {
    const kind: Kind
    var finished: bool
    ghost var round: nat             // the call of the bag that last polled it
    ghost var answer: Answer         // what it said then

    constructor (kind: Kind)
      ensures this.kind == kind && !finished && round == 0 && answer == NotYet
    {
      this.kind, finished, round, answer := kind, false, 0, NotYet;
    }

    /**
     Must not be called again once it has answered. A reader ends only with a message (there are
     `messages` of them left to come in this call) or with an error, a guard only with an error; a
     closer only ends.
     */
    method Poll(messages: nat, ghost now: nat) returns (a: Answer)
      requires !finished
      modifies this
      ensures finished <==> !a.NotYet?
      ensures round == now && answer == a
      ensures kind.Reader? ==> a.NotYet? || a.Stop? || (a.Next? && messages > 0)
      ensures kind.Guard? ==> a.NotYet? || a.Stop?
      ensures kind.Closer? ==> a.NotYet? || a.Done?
    {
      round := now;
      a := *;
      match kind {
        case Reader => if !(a.NotYet? || a.Stop? || (a.Next? && messages > 0)) { a := NotYet; }
        case Guard => if !(a.NotYet? || a.Stop?) { a := NotYet; }
        case Closer => if !(a.NotYet? || a.Done?) { a := NotYet; }
        case Worker =>
      }
      finished, answer := !a.NotYet?, a;
    }
  }

  /** The sequences hold the tasks of `all`, each once. */
  ghost predicate Holds(a: seq<Task>, b: seq<Task>, all: set<Task>) {
    && (forall t: Task :: t in all ==> t in a || t in b)
    && (forall i :: 0 <= i < |a| ==> a[i] in all)
    && (forall i :: 0 <= i < |b| ==> b[i] in all)
    && (forall i, j :: 0 <= i < j < |a| ==> a[i] != a[j])
    && (forall i, j :: 0 <= i < j < |b| ==> b[i] != b[j])
    && (forall i, j :: 0 <= i < |a| && 0 <= j < |b| ==> a[i] != b[j])
  }

  lemma Popped(a: seq<Task>, b: seq<Task>, all: set<Task>)
    requires Holds(a, b, all) && b != []
    ensures var t := b[|b| - 1]; t in all && Holds(a, b[..|b| - 1], all - {t}) && Holds(a + [t], b[..|b| - 1], all)
  {
  }

  lemma NotAmong(a: seq<Task>, b: seq<Task>, all: set<Task>)
    requires Holds(a, b, all) && b != []
    ensures b[|b| - 1] in all && b[|b| - 1] !in a
  {
  }

  lemma Pushed(a: seq<Task>, b: seq<Task>, all: set<Task>, t: Task)
    requires Holds(a, b, all) && t !in all
    ensures Holds(a, b + [t], all + {t})
  {
  }

  lemma Joined(a: seq<Task>, b: seq<Task>, all: set<Task>)
    requires Holds(a, b, all)
    ensures Holds(a + b, [], all) && Holds([], a + b, all)
  {
    forall i, j | 0 <= i < j < |a + b| ensures (a + b)[i] != (a + b)[j] {
    }
  }

  ghost predicate Alive(all: set<Task>)
    reads all
  {
    forall t: Task :: t in all ==> !t.finished
  }

  lemma OneMoreAlive(all: set<Task>, t: Task)
    requires Alive(all) && !t.finished
    ensures Alive(all + {t})
  {
  }

  /** Exactly one task reads the control connection. */
  ghost predicate OneReader(s: set<Task>, reader: Task) {
    reader in s && reader.kind.Reader? && forall t: Task :: t in s && t.kind.Reader? ==> t == reader
  }

  lemma ReaderLeft(s: set<Task>, reader: Task, t: Task)
    requires OneReader(s, reader) && t in s
    ensures if t.kind.Reader? then forall u: Task :: u in s - {t} ==> !u.kind.Reader? else OneReader(s - {t}, reader)
  {
  }

  /** What a call did: `made` tasks, of which and of those before `ended` have answered; the rest is held. */
  ghost predicate Conserved(before: set<Task>, made: set<Task>, ended: set<Task>, held: set<Task>)
    reads ended
  {
    && held == before + made - ended && ended <= before + made
    && forall t: Task :: t in ended ==> t.finished
  }

  ghost predicate PolledAt(s: seq<Task>, now: nat)
    reads s
  {
    forall t: Task :: t in s ==> t.round == now
  }

  lemma NonePolled(now: nat)
    ensures PolledAt([], now)
  {
  }

  lemma NothingYet(held: set<Task>)
    ensures Conserved(held, {}, {}, held) && Quietly({})
  {
  }

  /** The tasks that have answered in this call only made other tasks or ended. */
  ghost predicate Quietly(ended: set<Task>)
    reads ended
  {
    forall t: Task :: t in ended ==> t.answer.Next? || t.answer.Done?
  }

  /** Exactly one task that has answered had something for the caller. */
  ghost predicate OneDelivers(ended: set<Task>)
    reads ended
  {
    exists t: Task :: t in ended && t.answer.Deliver? && Quietly(ended - {t})
  }

  ghost predicate Stopped(tasks: set<Task>, e: Error, now: nat)
    reads tasks
  {
    exists t: Task :: t in tasks && t.answer == Stop(e) && t.round == now
  }

  lemma StoppedBy(t: Task, tasks: set<Task>, now: nat)
    requires t in tasks && t.answer.Stop? && t.round == now
    ensures Stopped(tasks, t.answer.error, now)
  {
  }

  lemma DeliveredBy(t: Task, before: set<Task>)
    requires t.answer.Deliver? && Quietly(before)
    ensures OneDelivers(before + {t})
  {
    assert before + {t} - {t} <= before;
  }

  lemma QuietlyEnded(t: Task, before: set<Task>)
    requires Quietly(before) && (t.answer.Next? || t.answer.Done?)
    ensures Quietly(before + {t})
  {
  }

  lemma DeliveredLater(before: set<Task>, ended: set<Task>)
    requires Quietly(before) && OneDelivers(ended)
    ensures OneDelivers(before + ended)
  {
    var t: Task :| t in ended && t.answer.Deliver? && Quietly(ended - {t});
    assert before + ended - {t} <= before + (ended - {t});
  }

  /** Takes the last task and polls it: it is kept for the next call, stops everything, or has answered. */
  method PollLast(futures: seq<Task>, todo: seq<Task>, messages: nat, ghost now: nat, ghost held: set<Task>)
    returns (task: Task, a: Answer, kept: seq<Task>, ghost left: set<Task>)
    requires |todo| > 0 && Holds(futures, todo, held) && Alive(held) && PolledAt(futures, now)
    modifies todo[|todo| - 1]
    ensures task == todo[|todo| - 1] && task in held && task.round == now && task.answer == a
    ensures left == if a.Stop? || a.NotYet? then held else held - {task}
    ensures !a.Stop? && !a.NotYet? ==> task.finished
    ensures !a.Stop? ==> Holds(kept, todo[..|todo| - 1], left) && Alive(left) && PolledAt(kept, now)
    ensures task.kind.Reader? && a.Next? ==> messages > 0
    ensures task.kind.Reader? ==> a.NotYet? || a.Stop? || a.Next?
    ensures task.kind.Guard? ==> a.NotYet? || a.Stop?
    ensures task.kind.Closer? ==> a.NotYet? || a.Done?
  {
    hide Holds;
    Popped(futures, todo, held);
    task := todo[|todo| - 1];
    NotAmong(futures, todo, held);
    a := task.Poll(messages, now);
    kept, left := futures, held;
    if a.NotYet? {
      kept := futures + [task];
    } else if !a.Stop? {
      left := held - {task};
    }
  }

  ghost function Workers(s: set<Task>): set<Task> {
    set t | t in s && t.kind.Worker?
  }

  ghost function Readers(s: set<Task>): set<Task> {
    set t | t in s && t.kind.Reader?
  }

  ghost function Closers(s: set<Task>): set<Task> {
    set t | t in s && t.kind.Closer?
  }

  /** The tasks that have answered with something that makes more work. */
  ghost function Askers(s: set<Task>): set<Task>
    reads s
  {
    set t | t in s && t.answer.Next?
  }

  lemma SizesAdd(a: set<Task>, b: set<Task>)
    requires a !! b
    ensures |a + b| == |a| + |b|
  {
  }

  lemma KindsAdd(a: set<Task>, b: set<Task>)
    requires a !! b
    ensures |Workers(a + b)| == |Workers(a)| + |Workers(b)|
    ensures |Readers(a + b)| == |Readers(a)| + |Readers(b)|
    ensures |Closers(a + b)| == |Closers(a)| + |Closers(b)|
  {
    SizesAdd(Workers(a), Workers(b));
    assert Workers(a + b) == Workers(a) + Workers(b);
    SizesAdd(Readers(a), Readers(b));
    assert Readers(a + b) == Readers(a) + Readers(b);
    SizesAdd(Closers(a), Closers(b));
    assert Closers(a + b) == Closers(a) + Closers(b);
  }

  lemma AskersAdd(a: set<Task>, b: set<Task>)
    requires a !! b
    ensures |Askers(a + b)| == |Askers(a)| + |Askers(b)|
    ensures |Askers(Readers(a + b))| == |Askers(Readers(a))| + |Askers(Readers(b))|
  {
    SizesAdd(Askers(a), Askers(b));
    assert Askers(a + b) == Askers(a) + Askers(b);
    SizesAdd(Askers(Readers(a)), Askers(Readers(b)));
    assert Askers(Readers(a + b)) == Askers(Readers(a)) + Askers(Readers(b));
  }

  lemma OneTask(t: Task)
    ensures |Workers({t})| == if t.kind.Worker? then 1 else 0
    ensures |Readers({t})| == if t.kind.Reader? then 1 else 0
    ensures |Closers({t})| == if t.kind.Closer? then 1 else 0
    ensures |Askers({t})| == if t.answer.Next? then 1 else 0
    ensures |Askers(Readers({t}))| == if t.kind.Reader? && t.answer.Next? then 1 else 0
  {
    assert Workers({t}) == if t.kind.Worker? then {t} else {};
    assert Readers({t}) == if t.kind.Reader? then {t} else {};
    assert Closers({t}) == if t.kind.Closer? then {t} else {};
    assert Askers({t}) == if t.answer.Next? then {t} else {};
    assert Askers({}) == {};
  }

  /** For each reader that came back with a `Map`, one task to forward it and one next reader were made, and nothing else. */
  ghost predicate Forwarded(made: set<Task>, ended: set<Task>)
    reads ended
  {
    && (forall t: Task :: t in made ==> t.kind.Worker? || t.kind.Reader?)
    && |Workers(made)| == |Askers(Readers(ended))| && |Readers(made)| == |Askers(Readers(ended))|
  }

  lemma NothingForwarded()
    ensures Forwarded({}, {}) && HandledAndClosed({}, {}, 0)
  {
    assert Workers({}) == {} && Readers({}) == {} && Closers({}) == {} && Askers({}) == {};
  }

  lemma OtherEnded(made: set<Task>, ended: set<Task>, t: Task)
    requires Forwarded(made, ended) && t !in ended && !(t.kind.Reader? && t.answer.Next?)
    ensures Forwarded(made, ended + {t})
  {
    hide Workers, Readers, Askers;
    AskersAdd(ended, {t});
    OneTask(t);
  }

  lemma MapForwarded(made: set<Task>, ended: set<Task>, t: Task, forward: Task, again: Task)
    requires Forwarded(made, ended) && t.kind.Reader? && t.answer.Next? && t !in ended
    requires forward.kind.Worker? && again.kind.Reader? && forward !in made && again !in made
    ensures Forwarded(made + {forward, again}, ended + {t})
  {
    hide Workers, Readers, Askers;
    AskersAdd(ended, {t});
    OneTask(t);
    KindsAdd(made, {forward});
    OneTask(forward);
    KindsAdd(made + {forward}, {again});
    OneTask(again);
    assert made + {forward} + {again} == made + {forward, again};
  }

  /** Each of the `arrived` visitors got a handler, each stream that is to be closed a closer, and nothing else was made. */
  ghost predicate HandledAndClosed(made: set<Task>, ended: set<Task>, arrived: nat)
    reads ended
  {
    && (forall t: Task :: t in made ==> t.kind.Worker? || t.kind.Closer?)
    && |Workers(made)| == arrived && |Closers(made)| == |Askers(ended)|
  }

  lemma VisitorHandled(made: set<Task>, ended: set<Task>, arrived: nat, handler: Task)
    requires HandledAndClosed(made, ended, arrived) && handler.kind.Worker? && handler !in made
    ensures HandledAndClosed(made + {handler}, ended, arrived + 1)
  {
    hide Workers, Readers, Askers, Closers;
    KindsAdd(made, {handler});
    OneTask(handler);
  }

  lemma NothingToClose(made: set<Task>, ended: set<Task>, arrived: nat, t: Task)
    requires HandledAndClosed(made, ended, arrived) && t !in ended && !t.answer.Next?
    ensures HandledAndClosed(made, ended + {t}, arrived)
  {
    hide Workers, Readers, Askers, Closers;
    AskersAdd(ended, {t});
    OneTask(t);
  }

  lemma StreamClosed(made: set<Task>, ended: set<Task>, arrived: nat, t: Task, closer: Task)
    requires HandledAndClosed(made, ended, arrived) && t.answer.Next? && t !in ended
    requires closer.kind.Closer? && closer !in made
    ensures HandledAndClosed(made + {closer}, ended + {t}, arrived)
  {
    hide Workers, Readers, Askers, Closers;
    KindsAdd(made, {closer});
    OneTask(closer);
    AskersAdd(ended, {t});
    OneTask(t);
  }

  lemma HandledTwice(made1: set<Task>, ended1: set<Task>, n1: nat, made2: set<Task>, ended2: set<Task>, n2: nat)
    requires HandledAndClosed(made1, ended1, n1) && HandledAndClosed(made2, ended2, n2)
    requires made1 !! made2 && ended1 !! ended2
    ensures HandledAndClosed(made1 + made2, ended1 + ended2, n1 + n2)
  {
    hide Workers, Readers, Askers, Closers;
    KindsAdd(made1, made2);
    AskersAdd(ended1, ended2);
  }

  /** The account of a call of the client's bag in which nothing was delivered yet. */
  ghost predicate Account(start: set<Task>, made: set<Task>, ended: set<Task>, held: set<Task>)
    reads ended
  {
    Conserved(start, made, ended, held) && held !! ended && Quietly(ended) && Forwarded(made, ended)
  }

  lemma EmptyAccount(held: set<Task>)
    ensures Account(held, {}, {}, held)
  {
    NothingYet(held);
    NothingForwarded();
  }

  lemma MapComes(start: set<Task>, made: set<Task>, ended: set<Task>, held: set<Task>, t: Task, forward: Task, again: Task)
    requires Account(start, made, ended, held) && t in held && t.finished && t.kind.Reader? && t.answer.Next?
    requires forward.kind.Worker? && again.kind.Reader? && forward !in start + made && again !in start + made
    ensures Account(start, made + {forward, again}, ended + {t}, held - {t} + {forward, again})
  {
    hide Forwarded, Quietly;
    MapForwarded(made, ended, t, forward, again);
    QuietlyEnded(t, ended);
  }

  lemma OneAnswers(start: set<Task>, made: set<Task>, ended: set<Task>, held: set<Task>, t: Task)
    requires Account(start, made, ended, held) && t in held && t.finished
    requires t.answer.Done? || (t.answer.Next? && !t.kind.Reader?)
    ensures Account(start, made, ended + {t}, held - {t})
  {
    hide Forwarded, Quietly;
    OtherEnded(made, ended, t);
    QuietlyEnded(t, ended);
  }

  lemma OneHasSomething(start: set<Task>, made: set<Task>, ended: set<Task>, held: set<Task>, t: Task)
    requires Account(start, made, ended, held) && t in held && t.finished && t.answer.Deliver?
    ensures Conserved(start, made, ended + {t}, held - {t}) && OneDelivers(ended + {t}) && Forwarded(made, ended + {t})
  {
    hide Forwarded, Quietly, OneDelivers;
    OtherEnded(made, ended, t);
    DeliveredBy(t, ended);
  }

  lemma AccountSays(start: set<Task>, made: set<Task>, ended: set<Task>, held: set<Task>)
    requires Account(start, made, ended, held)
    ensures Conserved(start, made, ended, held) && held !! ended && Quietly(ended) && Forwarded(made, ended)
    ensures held <= start + made
  {
  }

  class ClientBag {
    var futures: seq<Task>
    ghost var held: set<Task>
    ghost var reader: Task

    ghost predicate Valid()
      reads this, held
    {
      Holds(futures, [], held) && Alive(held) && OneReader(held, reader)
    }

    constructor ()
      ensures Valid() && fresh(held)
      ensures exists heartbeat: Task :: held == {reader, heartbeat} && heartbeat.kind.Guard?
    {
      var r := new Task(Reader);
      var heartbeat := new Task(Guard);
      futures, held, reader := [r, heartbeat], {r, heartbeat}, r;
    }

    /** A `Map` has come: a task to forward it, and the next reader. */
    method Started(todo: seq<Task>) returns (more: seq<Task>, ghost two: set<Task>)
      requires Holds(futures, todo, held) && Alive(held) && forall t: Task :: t in held ==> !t.kind.Reader?
      modifies this`held, this`reader
      ensures Holds(futures, more, held) && Alive(held) && OneReader(held, reader)
      ensures fresh(two) && held == old(held) + two
      ensures exists forward: Task :: two == {forward, reader} && forward.kind.Worker? && reader.kind.Reader?
    {
      hide Holds;
      var forward := new Task(Worker);
      var again := new Task(Reader);
      Pushed(futures, todo, held, forward);
      Pushed(futures, todo + [forward], held + {forward}, again);
      assert todo + [forward] + [again] == todo + [forward, again];
      two := {forward, again};
      reader, held := again, held + {forward} + {again};
      more := todo + [forward, again];
    }

    lemma OpenUp()
      requires Valid()
      ensures Holds(futures, [], held) && Alive(held) && OneReader(held, reader)
    {
    }

    lemma Settled()
      requires Holds(futures, [], held) && Alive(held) && OneReader(held, reader)
      ensures Valid()
    {
    }

    /** The tasks not polled yet go back to the others. */
    method Rejoin(todo: seq<Task>)
      requires Holds(futures, todo, held) && Alive(held) && OneReader(held, reader)
      modifies this`futures
      ensures Valid()
    {
      hide Holds;
      Joined(futures, todo, held);
      futures := futures + todo;
    }

    /**
     One poll. Unless it ends with an error, no task is lost, doubled or polled after its answer, one
     task reads the control connection, and on Pending every task left was polled in this call. Every
     `Map` that came starts a task to forward it, and nothing else starts one.
     */
    method PollGenerate(messages: nat, ghost now: nat) returns (r: Poll<()>, ghost made: set<Task>, ghost ended: set<Task>)
      requires Valid()
      modifies this, held
      ensures fresh(made) && Forwarded(made, ended)
      ensures r.Pending? || r.result.Ok? ==> Valid() && Conserved(old(held), made, ended, held)
      ensures r.Pending? ==> PolledAt(futures, now) && Quietly(ended)
      ensures r.Ready? && r.result.Ok? ==> OneDelivers(ended)
      ensures r.Ready? && r.result.Err? ==> Stopped(held, r.result.error, now)
    {
      hide Holds, OneDelivers, Stopped, Conserved, Quietly, OneReader, Forwarded, Account, Alive, PolledAt, Valid;
      OpenUp();
      var todo, left := futures, messages;
      Joined(futures, [], held);
      assert futures + [] == futures;
      futures := [];
      made, ended := {}, {};
      EmptyAccount(held);
      NonePolled(now);
      while |todo| > 0
        invariant Holds(futures, todo, held) && Alive(held) && OneReader(held, reader)
        invariant Account(old(held), made, ended, held) && fresh(made) && held !! ended && held <= old(held) + made
        invariant PolledAt(futures, now)
        decreases left, |todo|
      {
        ghost var before := held;
        var task, a;
        NotAmong(futures, todo, held);
        task, a, futures, held := PollLast(futures, todo, left, now, held);
        todo := todo[..|todo| - 1];
        if a.Stop? {
          StoppedBy(task, held, now);
          AccountSays(old(held), made, ended, before);
          return Ready(Err(a.error)), made, ended;
        } else if a.Next? && task.kind.Reader? {
          ReaderLeft(before, reader, task);
          left := left - 1;
          ghost var two;
          todo, two := Started(todo);
          ghost var forward: Task :| two == {forward, reader} && forward.kind.Worker? && reader.kind.Reader?;
          MapComes(old(held), made, ended, before, task, forward, reader);
          made, ended := made + two, ended + {task};
        } else if a.Deliver? {
          ReaderLeft(before, reader, task);
          OneHasSomething(old(held), made, ended, before, task);
          Rejoin(todo);
          return Ready(Ok(())), made, ended + {task};
        } else if !a.NotYet? {
          ReaderLeft(before, reader, task);
          OneAnswers(old(held), made, ended, before, task);
          ended := ended + {task};
        }
      }
      assert todo == [];
      Settled();
      AccountSays(old(held), made, ended, held);
      return Pending, made, ended;
    }
  }

  /** Bounds the polls of a drain: only tasks that are not closers make more work, and that is a closer. */
  ghost function Weight(s: seq<Task>): nat {
    if |s| == 0 then 0 else Weight(s[..|s| - 1]) + if s[|s| - 1].kind.Closer? then 1 else 2
  }

  lemma WeightSnoc(s: seq<Task>, t: Task)
    ensures Weight(s + [t]) == Weight(s) + if t.kind.Closer? then 1 else 2
  {
    assert (s + [t])[..|s|] == s;
  }

  /** What the accepter answers. */
  datatype Arrival = Nobody | Visitor | Failed(error: Error)

  ghost predicate AllVisitors(arrivals: seq<Arrival>) {
    forall i :: 0 <= i < |arrivals| ==> arrivals[i].Visitor?
  }

  /** The receiver of control messages and the heartbeat, which end only with an error. */
  ghost predicate Guarded(all: set<Task>, guards: set<Task>) {
    guards <= all && |guards| == 2 && forall t: Task :: t in guards ==> t.kind.Guard?
  }

  lemma GuardsStay(all: set<Task>, guards: set<Task>, t: Task, more: set<Task>)
    requires Guarded(all, guards)
    ensures !t.kind.Guard? ==> Guarded(all - {t}, guards)
    ensures Guarded(all + more, guards)
  {
  }

  /** The account of a call of the server's bag in which nothing was delivered yet. */
  ghost predicate Ledger(start: set<Task>, made: set<Task>, ended: set<Task>, held: set<Task>, arrived: nat)
    reads ended
  {
    Conserved(start, made, ended, held) && held !! ended && Quietly(ended) && HandledAndClosed(made, ended, arrived)
  }

  lemma EmptyLedger(held: set<Task>)
    ensures Ledger(held, {}, {}, held, 0)
  {
    NothingYet(held);
    NothingForwarded();
  }

  lemma CloserMade(start: set<Task>, made: set<Task>, ended: set<Task>, held: set<Task>, n: nat, t: Task, closer: Task)
    requires Ledger(start, made, ended, held, n) && t in held && t.finished && t.answer.Next?
    requires closer.kind.Closer? && closer !in start + made
    ensures Ledger(start, made + {closer}, ended + {t}, held - {t} + {closer}, n)
  {
    hide HandledAndClosed, Quietly;
    StreamClosed(made, ended, n, t, closer);
    QuietlyEnded(t, ended);
  }

  lemma OneDone(start: set<Task>, made: set<Task>, ended: set<Task>, held: set<Task>, n: nat, t: Task)
    requires Ledger(start, made, ended, held, n) && t in held && t.finished && t.answer.Done?
    ensures Ledger(start, made, ended + {t}, held - {t}, n)
  {
    hide HandledAndClosed, Quietly;
    NothingToClose(made, ended, n, t);
    QuietlyEnded(t, ended);
  }

  lemma OneRouted(start: set<Task>, made: set<Task>, ended: set<Task>, held: set<Task>, n: nat, t: Task)
    requires Ledger(start, made, ended, held, n) && t in held && t.finished && t.answer.Deliver?
    ensures Conserved(start, made, ended + {t}, held - {t}) && OneDelivers(ended + {t}) && HandledAndClosed(made, ended + {t}, n)
  {
    hide HandledAndClosed, Quietly, OneDelivers;
    NothingToClose(made, ended, n, t);
    DeliveredBy(t, ended);
  }

  lemma VisitorCame(start: set<Task>, made: set<Task>, ended: set<Task>, held: set<Task>, n: nat, handler: Task)
    requires Ledger(start, made, ended, held, n) && handler.kind.Worker? && handler !in start + made
    ensures Ledger(start, made + {handler}, ended, held + {handler}, n + 1)
  {
    hide HandledAndClosed, Quietly;
    VisitorHandled(made, ended, n, handler);
  }

  lemma LedgerSays(start: set<Task>, made: set<Task>, ended: set<Task>, held: set<Task>, n: nat)
    requires Ledger(start, made, ended, held, n)
    ensures Conserved(start, made, ended, held) && held !! ended && Quietly(ended) && HandledAndClosed(made, ended, n)
    ensures held <= start + made && ended <= start + made
  {
  }

  /** A round of draining after the rounds before it. */
  lemma LedgersAdd(start: set<Task>, made: set<Task>, ended: set<Task>, mid: set<Task>, n: nat,
                   m: set<Task>, e: set<Task>, held: set<Task>)
    requires Ledger(start, made, ended, mid, n) && e <= mid + m && m !! start + made
    requires HandledAndClosed(m, e, 0)
    ensures HandledAndClosed(made + m, ended + e, n)
    ensures Conserved(mid, m, e, held) ==> Conserved(start, made + m, ended + e, held)
    ensures Conserved(mid, m, e, held) && held !! e && Quietly(e) ==>
              Ledger(start, made + m, ended + e, held, n) && held !! ended + e && held <= start + (made + m)
    ensures OneDelivers(e) ==> OneDelivers(ended + e)
  {
    hide HandledAndClosed, OneDelivers;
    HandledTwice(made, ended, n, m, e, 0);
    if OneDelivers(e) {
      DeliveredLater(ended, e);
    }
    if Conserved(mid, m, e, held) {
      ConservedTwice(start, made, ended, mid, m, e, held);
    }
  }

  class ServerBag {
    var futures: seq<Task>
    ghost var held: set<Task>
    ghost const guards: set<Task>

    ghost predicate Valid()
      reads this, held
    {
      Holds(futures, [], held) && Alive(held) && Guarded(held, guards)
    }

    constructor ()
      ensures Valid() && held == guards && fresh(held)
    {
      var receiver := new Task(Guard);
      var heartbeat := new Task(Guard);
      futures, held, guards := [receiver, heartbeat], {receiver, heartbeat}, {receiver, heartbeat};
    }

    /** A visitor's stream is to be closed: by another task. */
    method Closing(todo: seq<Task>) returns (more: seq<Task>, ghost closer: Task)
      requires Holds(futures, todo, held) && Alive(held) && Guarded(held, guards)
      modifies this`held
      ensures Holds(futures, more, held) && Alive(held) && Guarded(held, guards)
      ensures fresh(closer) && closer.kind.Closer? && held == old(held) + {closer} && Weight(more) == Weight(todo) + 1
    {
      hide Holds, Guarded;
      var c := new Task(Closer);
      Pushed(futures, todo, held, c);
      WeightSnoc(todo, c);
      GuardsStay(held, guards, c, {c});
      closer, held, more := c, held + {c}, todo + [c];
    }

    lemma OpenUp()
      requires Valid()
      ensures Holds(futures, [], held) && Alive(held) && Guarded(held, guards)
    {
    }

    lemma Settled()
      requires Holds(futures, [], held) && Alive(held) && Guarded(held, guards)
      ensures Valid()
    {
    }

    /** The tasks not polled yet go back to the others. */
    method Rejoin(todo: seq<Task>)
      requires Holds(futures, todo, held) && Alive(held) && Guarded(held, guards)
      modifies this`futures
      ensures Valid()
    {
      hide Holds;
      Joined(futures, todo, held);
      futures := futures + todo;
    }

    /** A task has answered: it ends, delivers, or makes a closer. */
    method Answered(task: Task, a: Answer, todo: seq<Task>, ghost before: set<Task>,
                    ghost start: set<Task>, ghost made: set<Task>, ghost ended: set<Task>)
      returns (more: seq<Task>, ghost closers: set<Task>)
      requires Ledger(start, made, ended, before, 0) && task in before && held == before - {task}
      requires task.finished && task.answer == a && !a.NotYet? && !a.Stop? && !task.kind.Guard?
      requires task.kind.Closer? ==> a.Done?
      requires Holds(futures, todo, held) && Alive(held) && Guarded(held, guards)
      modifies this`held, this`futures
      ensures fresh(closers) && held == old(held) + closers
      ensures a.Deliver? ==>
                && Valid() && Conserved(start, made + closers, ended + {task}, held)
                && OneDelivers(ended + {task}) && HandledAndClosed(made + closers, ended + {task}, 0)
      ensures !a.Deliver? ==>
                && futures == old(futures) && Holds(futures, more, held) && Alive(held) && Guarded(held, guards)
                && Ledger(start, made + closers, ended + {task}, held, 0)
                && Weight(more) <= Weight(todo) + if task.kind.Closer? then 0 else 1
    {
      hide Holds, Weight, OneDelivers, Conserved, Quietly, Guarded, HandledAndClosed, Ledger, Alive, Valid;
      more, closers := todo, {};
      assert made + {} == made;
      if a.Deliver? {
        OneRouted(start, made, ended, before, 0, task);
        Rejoin(todo);
      } else if a.Next? {
        ghost var closer;
        more, closer := Closing(todo);
        LedgerSays(start, made, ended, before, 0);
        closers := {closer};
        CloserMade(start, made, ended, before, 0, task, closer);
      } else {
        OneDone(start, made, ended, before, 0, task);
      }
    }

    /** The inner loop: polls all of `todo`, and the closers that come of it, or stops with an outcome. */
    method Drain(todo: seq<Task>, ghost now: nat) returns (stop: Option<Result<()>>, ghost made: set<Task>, ghost ended: set<Task>)
      requires Holds(futures, todo, held) && Alive(held) && Guarded(held, guards) && PolledAt(futures, now)
      modifies this, held
      ensures fresh(made) && HandledAndClosed(made, ended, 0) && ended <= old(held) + made
      ensures stop.None? || stop.value.Ok? ==> Valid() && Conserved(old(held), made, ended, held)
      ensures stop.None? ==> PolledAt(futures, now) && Quietly(ended) && held !! ended
      ensures stop.Some? && stop.value.Ok? ==> OneDelivers(ended)
      ensures stop.Some? && stop.value.Err? ==> Stopped(held, stop.value.error, now)
    {
      hide Holds, Weight, OneDelivers, Stopped, Conserved, Quietly, Guarded, HandledAndClosed, Ledger;
      hide Alive, PolledAt, Valid;
      var todo := todo;
      made, ended := {}, {};
      EmptyLedger(held);
      while |todo| > 0
        invariant Holds(futures, todo, held) && Alive(held) && Guarded(held, guards)
        invariant Ledger(old(held), made, ended, held, 0) && fresh(made) && held !! ended
        invariant held <= old(held) + made && ended <= old(held) + made
        invariant PolledAt(futures, now)
        decreases Weight(todo)
      {
        ghost var before := held;
        var task, a;
        assert todo == todo[..|todo| - 1] + [todo[|todo| - 1]];
        WeightSnoc(todo[..|todo| - 1], todo[|todo| - 1]);
        NotAmong(futures, todo, held);
        task, a, futures, held := PollLast(futures, todo, 0, now, held);
        todo := todo[..|todo| - 1];
        if a.Stop? {
          StoppedBy(task, held, now);
          LedgerSays(old(held), made, ended, before, 0);
          return Some(Err(a.error)), made, ended;
        } else if !a.NotYet? {
          GuardsStay(before, guards, task, {});
          ghost var closers;
          todo, closers := Answered(task, a, todo, before, old(held), made, ended);
          made, ended := made + closers, ended + {task};
          if a.Deliver? {
            return Some(Ok(())), made, ended;
          }
        }
      }
      assert todo == [];
      Settled();
      LedgerSays(old(held), made, ended, held, 0);
      return None, made, ended;
    }

    /**
     One poll: accepts until nobody waits, and drains the bag after every attempt. Unless it ends
     with an error, no task is lost, doubled or polled after its answer, the receiver and the
     heartbeat stay, and on Pending every task left was polled in this call. Every visitor that was
     accepted has a handler, every stream to be closed a closer, and nothing else is made; on Pending
     nobody waits any more.
     */
    method PollAccept(arrivals: seq<Arrival>, ghost now: nat)
      returns (r: Poll<()>, ghost made: set<Task>, ghost ended: set<Task>, ghost arrived: nat)
      requires Valid()
      modifies this, held
      ensures fresh(made) && HandledAndClosed(made, ended, arrived)
      ensures arrived <= |arrivals| && AllVisitors(arrivals[..arrived])
      ensures r.Pending? ==> arrived == |arrivals| || arrivals[arrived].Nobody?
      ensures r.Pending? || r.result.Ok? ==> Valid() && Conserved(old(held), made, ended, held)
      ensures r.Pending? ==> PolledAt(futures, now) && Quietly(ended)
      ensures r.Ready? && r.result.Ok? ==> OneDelivers(ended)
      ensures r.Ready? && r.result.Err? ==> Stopped(held, r.result.error, now) || Failed(r.result.error) in arrivals
    {
      hide Holds, Guarded, HandledAndClosed, Ledger, OneDelivers, Stopped, Conserved, Quietly, Alive, PolledAt, Valid;
      OpenUp();
      NonePolled(now);
      var todo, again := futures, true;
      Joined(futures, [], held);
      assert futures + [] == futures;
      futures := [];
      made, ended, arrived := {}, {}, 0;
      EmptyLedger(held);
      var i := 0;
      while again
        invariant i == arrived <= |arrivals| && Holds(futures, todo, held) && Alive(held) && Guarded(held, guards)
        invariant Ledger(old(held), made, ended, held, arrived) && fresh(made) && held !! ended && held <= old(held) + made
        invariant PolledAt(futures, now) && (!again ==> todo == [])
        invariant AllVisitors(arrivals[..i])
        invariant !again ==> i == |arrivals| || arrivals[i].Nobody?
        decreases again, |arrivals| - i
      {
        var arrival := if i < |arrivals| then arrivals[i] else Nobody;
        match arrival {
          case Failed(e) =>
            LedgerSays(old(held), made, ended, held, arrived);
            return Ready(Err(e)), made, ended, arrived;
          case Nobody =>
            again := false;
          case Visitor =>
            var handler := new Task(Worker);
            Pushed(futures, todo, held, handler);
            GuardsStay(held, guards, handler, {handler});
            OneMoreAlive(held, handler);
            VisitorCame(old(held), made, ended, held, arrived, handler);
            made, held, todo := made + {handler}, held + {handler}, todo + [handler];
            assert arrivals[..i + 1] == arrivals[..i] + [arrivals[i]];
            i, arrived := i + 1, arrived + 1;
        }
        var stop;
        ghost var before, m, e := held, made, ended;
        stop, m, e := Drain(todo, now);
        LedgersAdd(old(held), made, ended, before, arrived, m, e, held);
        made, ended, todo := made + m, ended + e, [];
        if stop.Some? {
          return Ready(stop.value), made, ended, arrived;
        }
        OpenUp();
      }
      Settled();
      LedgerSays(old(held), made, ended, held, arrived);
      return Pending, made, ended, arrived;
    }
  }

  lemma ConservedTwice(a: set<Task>, made1: set<Task>, ended1: set<Task>, b: set<Task>,
                       made2: set<Task>, ended2: set<Task>, c: set<Task>)
    requires b == a + made1 - ended1 && ended1 <= a + made1 && ended1 !! made2
    requires c == b + made2 - ended2 && ended2 <= b + made2
    ensures c == a + (made1 + made2) - (ended1 + ended2) && ended1 + ended2 <= a + (made1 + made2)
  {
  }
}
