/** Two futures polled as one (src/async/join.rs), and the connects of a client task (src/net/penetrate/client.rs). */
module Join {
  import opened Common

  /**
   A connect: answers some time, after which it must not be polled again. When it fails it sends a
   `MapError` before it answers, if the control connection takes it (`reachable`).
   */
  class Connecting<T> {
    const answer: Result<T>
    const reachable: bool
    var finished: bool
    var mapErrors: nat
    ghost var polls: nat

    constructor (answer: Result<T>, reachable: bool)
      ensures !finished && mapErrors == 0 && this.answer == answer && this.reachable == reachable
    {
      this.answer, this.reachable, finished, mapErrors, polls := answer, reachable, false, 0, 0;
    }

    method Poll() returns (r: Poll<T>)
      requires !finished
      modifies this
      ensures r.Pending? ==> !finished
      ensures r.Ready? ==> finished && r.result == answer
      ensures mapErrors == old(mapErrors) + if r.Ready? && r.result.Err? && reachable then 1 else 0
      ensures polls == old(polls) + 1
    {
      polls := polls + 1;
      if * {
        r := Pending;
      } else {
        if answer.Err? && reachable {
          mapErrors := mapErrors + 1;
        }
        finished := true;
        r := Ready(answer);
      }
    }
  }

  class JoinOutput<A, B> {
    ghost const first: Connecting<A>
    ghost const second: Connecting<B>
    var fut1: Connecting?<A>
    var fut2: Connecting?<B>
    var result1: Option<A>
    var result2: Option<B>

    constructor (f1: Connecting<A>, f2: Connecting<B>)
      requires !f1.finished && !f2.finished && f1.mapErrors == 0 && f2.mapErrors == 0 && f1 as object != f2
      ensures Valid() && first == f1 && second == f2
    {
      fut1, fut2, result1, result2 := f1, f2, None, None;
      first, second := f1, f2;
    }

    /** A result is there exactly when its future is gone, and a future that is held has not answered. */
    ghost predicate Valid()
      reads this, first, second
    {
      && first as object != second
      && first.mapErrors == 0 && second.mapErrors == 0
      && (fut1 != null ==> fut1 == first && result1.None? && !first.finished)
      && (fut2 != null ==> fut2 == second && result2.None? && !second.finished)
      && (fut1 == null ==> first.finished && first.answer.Ok? && result1 == Some(first.answer.value))
      && (fut2 == null ==> second.finished && second.answer.Ok? && result2 == Some(second.answer.value))
    }

    ghost function Live(): nat
      reads this
    {
      (if fut1 != null then 1 else 0) + (if fut2 != null then 1 else 0)
    }

    /** The first arm; `stop`: the loop ends, with an error or to see what there is. */
    method PollFirst() returns (stop: bool, failed: Option<Error>)
      requires Valid()
      modifies this`fut1, this`result1, first
      ensures failed.None? ==> Valid()
      ensures failed.Some? ==> Failed(failed.value) && stop && first.finished && !old(first.finished)
      ensures stop && failed.None? ==> fut2 == null
      ensures !stop ==> fut1 == null || fut2 != null
      ensures first.polls >= old(first.polls) && (fut1 != null && failed.None? ==> first.polls > old(first.polls))
      ensures Live() <= old(Live())
    {
      stop, failed := false, None;
      if fut1 == null {
        stop := fut2 == null;
      } else {
        var fut := fut1;
        fut1 := null;
        var p := fut.Poll();
        match p {
          case Pending =>
            fut1 := fut;
            stop := fut2 == null;
          case Ready(Err(e)) =>
            stop, failed := true, Some(e);
          case Ready(Ok(v)) =>
            result1 := Some(v);
        }
      }
    }

    method PollSecond() returns (stop: bool, failed: Option<Error>)
      requires Valid()
      modifies this`fut2, this`result2, second
      ensures failed.None? ==> Valid()
      ensures failed.Some? ==> Failed(failed.value) && stop && second.finished && !old(second.finished)
      ensures stop && failed.None? ==> fut2 != null || fut1 == null
      ensures second.polls >= old(second.polls) && (fut2 != null && failed.None? ==> second.polls > old(second.polls))
      ensures !stop ==> fut2 == null && (old(fut2) != null || fut1 != null)
      ensures !stop && old(fut2) != null ==> Live() < old(Live())
      ensures Live() <= old(Live())
    {
      stop, failed := false, None;
      if fut2 == null {
        stop := fut1 == null;
      } else {
        var fut := fut2;
        fut2 := null;
        var p := fut.Poll();
        match p {
          case Pending =>
            fut2 := fut;
            stop := true;
          case Ready(Err(e)) =>
            stop, failed := true, Some(e);
          case Ready(Ok(v)) =>
            result2 := Some(v);
        }
      }
    }

    /** One connect failed, the other did not: it is polled no more. The server is told once, if that is possible. */
    ghost predicate Failed(e: Error)
      reads first, second
    {
      || (&& first.finished && first.answer == Err(e) && (second.finished ==> second.answer.Ok?)
          && first.mapErrors == (if first.reachable then 1 else 0) && second.mapErrors == 0)
      || (&& second.finished && second.answer == Err(e) && (first.finished ==> first.answer.Ok?)
          && second.mapErrors == (if second.reachable then 1 else 0) && first.mapErrors == 0)
    }

    /**
     One poll. Neither future is polled after it has answered, and on Pending each that is left was
     polled; success needs both answers; the first failure ends it, so exactly one `MapError` is sent,
     unless the control connection is gone.
     */
    method Poll() returns (r: Poll<(A, B)>)
      requires Valid()
      modifies this, first, second
      ensures r.Pending? ==> Valid() && Live() > 0 && Live() <= old(Live())
      ensures r.Pending? ==> (fut1 != null ==> first.polls > old(first.polls)) && (fut2 != null ==> second.polls > old(second.polls))
      ensures r.Ready? && r.result.Ok? ==>
                && first.finished && second.finished && first.mapErrors == 0 && second.mapErrors == 0
                && first.answer == Ok(r.result.value.0) && second.answer == Ok(r.result.value.1)
      ensures r.Ready? && r.result.Err? ==> Failed(r.result.error)
    {
      while true
        invariant Valid() && Live() <= old(Live())
        invariant first.polls >= old(first.polls) && second.polls >= old(second.polls)
        decreases Live()
      {
        var stop, failed := PollFirst();
        if failed.Some? {
          return Ready(Err(failed.value));
        }
        if stop {
          break;
        }
        stop, failed := PollSecond();
        if failed.Some? {
          return Ready(Err(failed.value));
        }
        if stop {
          break;
        }
      }
      if fut1 == null && fut2 == null {
        var v1, v2 := result1.value, result2.value;
        result1, result2 := None, None;
        r := Ready(Ok((v1, v2)));
      } else {
        r := Pending;
      }
    }
  }
}
