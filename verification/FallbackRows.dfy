/** Exactly which rows of attempts, each behind its own mark, give the stream back as it was. */
module FallbackRows {
  import opened Common
  import opened FallbackSpec

  /** Position `j` of a stream whose first `b` bytes were rotated by `r`: where its byte came from. */
  function Rot(b: nat, r: nat, j: nat): nat {
    if j < b then (j + r) % b else j
  }

  /** The same for an attempt that takes `t` bytes at a backlog of `b`. */
  function From(b: nat, t: nat, j: nat): nat {
    if 0 < t < b then Rot(b, t, j) else j
  }

  function Grown(b: nat, t: nat): nat {
    if t > b then t else b
  }

  /** The same for a row of attempts. */
  function Source(b: nat, ts: seq<nat>, i: nat): nat
    decreases |ts|
  {
    if |ts| == 0 then i else From(b, ts[0], Source(Grown(b, ts[0]), ts[1..], i))
  }

  predicate Whole(b: nat, r: nat) {
    b == 0 || r % b == 0
  }

  /** Before the backlog grows, and at the end, the bytes taken at it add up to a multiple of it. */
  predicate Restoring(b: nat, r: nat, ts: seq<nat>)
    decreases |ts|
  {
    if |ts| == 0 then Whole(b, r)
    else if ts[0] > b then Whole(b, r) && Restoring(ts[0], 0, ts[1..])
    else Restoring(b, r + ts[0], ts[1..])
  }

  // ---- Rotations ----

  lemma ModUnique(a: int, b: nat, q: int, y: int)
    requires b > 0 && a == b * q + y && 0 <= y < b
    ensures a % b == y
  {
    var d := a / b - q;
    assert b * d == y - a % b;
    assert d >= 1 ==> b * d >= b;
    assert d <= -1 ==> b * d <= b * -1;
  }

  lemma ModAdd(x: nat, r: nat, b: nat)
    requires b > 0
    ensures (x % b + r) % b == (x + r) % b
  {
    var s := x % b + r;
    ModUnique(x + r, b, x / b + s / b, s % b);
    assert x + r == b * (x / b) + s == b * (x / b) + b * (s / b) + s % b;
    assert b * (x / b) + b * (s / b) == b * (x / b + s / b);
  }

  lemma RotTwice(b: nat, r: nat, t: nat, j: nat)
    ensures Rot(b, r, Rot(b, t, j)) == Rot(b, r + t, j)
  {
    if j < b {
      ModAdd(j + t, r, b);
    }
  }

  lemma RotWhole(b: nat, r: nat, j: nat)
    requires Whole(b, r)
    ensures Rot(b, r, j) == j
  {
    if j < b {
      ModAdd(r, j, b);
    }
  }

  /** A rotation that leaves one position alone is none. */
  lemma RotFixes(b: nat, r: nat, j: nat)
    requires j < b && Rot(b, r, j) == j
    ensures Whole(b, r)
  {
    var q := (j + r) / b;
    assert r == b * q + 0;
    ModUnique(r, b, q, 0);
  }

  /** An attempt within the backlog adds to the rotation. */
  lemma FromAdds(b: nat, r: nat, t: nat, j: nat)
    requires t <= b
    ensures Rot(b, r, From(b, t, j)) == Rot(b, r + t, j)
  {
    if 0 < t < b {
      RotTwice(b, r, t, j);
    } else if t == b && j < b {
      RotTwice(b, r, t, j);
      ModUnique(b, b, 1, 0);
      RotWhole(b, t, j);
    }
  }

  // ---- Rows ----

  lemma {:induction false} RestoringIsIdentity(b: nat, r: nat, ts: seq<nat>, i: nat)
    requires Restoring(b, r, ts)
    ensures Rot(b, r, Source(b, ts, i)) == i
    decreases |ts|
  {
    if |ts| == 0 {
      RotWhole(b, r, i);
    } else if ts[0] > b {
      RestoringIsIdentity(ts[0], 0, ts[1..], i);
      RotWhole(ts[0], 0, Source(ts[0], ts[1..], i));
      RotWhole(b, r, i);
    } else {
      RestoringIsIdentity(b, r + ts[0], ts[1..], i);
      FromAdds(b, r, ts[0], Source(b, ts[1..], i));
    }
  }

  /**
   If every position from some point within the backlog on is where it was, then the row restores:
   the last backlog at which it did not could not be undone by the smaller ones before it.
   */
  lemma {:induction false} IdentityIsRestoring(b: nat, r: nat, ts: seq<nat>, from: nat)
    requires from < b || (b == 0 && from == 0)
    requires forall i: nat {:trigger Source(b, ts, i)} :: i >= from ==> Rot(b, r, Source(b, ts, i)) == i
    ensures Restoring(b, r, ts)
    decreases |ts|
  {
    if |ts| == 0 {
      assert Source(b, ts, from) == from;
      if b > 0 {
        RotFixes(b, r, from);
      }
    } else if ts[0] > b {
      GrowthKeepsTail(b, r, ts, from);
      IdentityIsRestoring(ts[0], 0, ts[1..], b);
      if b > 0 {
        RestoringIsIdentity(ts[0], 0, ts[1..], from);
        RotWhole(ts[0], 0, Source(ts[0], ts[1..], from));
        assert Rot(b, r, Source(b, ts, from)) == from;
        RotFixes(b, r, from);
      }
    } else {
      forall i: nat {:trigger Source(b, ts[1..], i)} | i >= from ensures Rot(b, r + ts[0], Source(b, ts[1..], i)) == i {
        assert Rot(b, r, Source(b, ts, i)) == i;
        FromAdds(b, r, ts[0], Source(b, ts[1..], i));
      }
      IdentityIsRestoring(b, r + ts[0], ts[1..], from);
    }
  }

  lemma GrowthKeepsTail(b: nat, r: nat, ts: seq<nat>, from: nat)
    requires |ts| > 0 && ts[0] > b && from <= b
    requires forall i: nat {:trigger Source(b, ts, i)} :: i >= from ==> Rot(b, r, Source(b, ts, i)) == i
    ensures forall i: nat {:trigger Source(ts[0], ts[1..], i)} :: i >= b ==> Rot(ts[0], 0, Source(ts[0], ts[1..], i)) == i
  {
    forall i: nat {:trigger Source(ts[0], ts[1..], i)} | i >= b ensures Rot(ts[0], 0, Source(ts[0], ts[1..], i)) == i {
      assert Rot(b, r, Source(b, ts, i)) == i;
      RotWhole(ts[0], 0, Source(ts[0], ts[1..], i));
    }
  }

  // ---- Streams ----

  function Sums(tries: seq<seq<nat>>): seq<nat> {
    seq(|tries|, i requires 0 <= i < |tries| => Sum(tries[i]))
  }

  lemma SumsTail(tries: seq<seq<nat>>)
    requires |tries| > 0
    ensures Sums(tries)[0] == Sum(tries[0]) && Sums(tries)[1..] == Sums(tries[1..])
  {
  }

  function Backlog(v: View): nat {
    |OrEmpty(v.backed)|
  }

  lemma PeekSource(v: View, ns: seq<nat>)
    requires v.marked.None? && CanReadAll(Marked(v), ns)
    ensures var u, w := Unread(v), Unread(Peeked(v, ns));
            && |w| == |u| && Sum(ns) <= |u| && Backlog(v) <= |u|
            && Backlog(Peeked(v, ns)) == Grown(Backlog(v), Sum(ns)) && Peeked(v, ns).marked.None?
            && forall j :: 0 <= j < |u| ==> From(Backlog(v), Sum(ns), j) < |u| && w[j] == u[From(Backlog(v), Sum(ns), j)]
  {
    PeekRotates(v, ns);
    var b, t, u, w := Backlog(v), Sum(ns), Unread(v), Unread(Peeked(v, ns));
    var k := Grown(b, t);
    hide Peeked, Sum, Unread, OrEmpty, From;
    assert w == u[t..k] + u[..t] + u[k..];
    forall j | 0 <= j < |u| ensures From(b, t, j) < |u| && w[j] == u[From(b, t, j)] {
      RotatedAt(u, b, t, j);
    }
  }

  lemma RotatedAt(u: Bytes, b: nat, t: nat, j: nat)
    requires t <= |u| && b <= |u| && j < |u|
    ensures From(b, t, j) < |u|
    ensures (u[t..Grown(b, t)] + u[..t] + u[Grown(b, t)..])[j] == u[From(b, t, j)]
  {
    if 0 < t < b && j < b {
      if j < b - t {
        ModUnique(j + t, b, 0, j + t);
      } else {
        ModUnique(j + t, b, 1, j + t - b);
      }
    }
  }

  /** After a row of attempts each position holds the byte of its source. */
  lemma {:induction false} TriesSource(v: View, tries: seq<seq<nat>>, i: nat)
    requires v.marked.None? && CanTryAll(v, tries) && i < |Unread(v)|
    ensures |Unread(AfterTries(v, tries))| == |Unread(v)|
    ensures Source(Backlog(v), Sums(tries), i) < |Unread(v)|
    ensures Unread(AfterTries(v, tries))[i] == Unread(v)[Source(Backlog(v), Sums(tries), i)]
    decreases |tries|
  {
    if |tries| > 0 {
      var w := Peeked(v, tries[0]);
      PeekSource(v, tries[0]);
      TriesSource(w, tries[1..], i);
      SumsTail(tries);
    }
  }

  /** Positions behind every byte that was looked at stay. */
  lemma {:induction false} FarStays(v: View, tries: seq<seq<nat>>, i: nat)
    requires v.marked.None? && CanTryAll(v, tries) && i >= |Unread(v)|
    ensures Source(Backlog(v), Sums(tries), i) == i
    decreases |tries|
  {
    if |tries| > 0 {
      PeekSource(v, tries[0]);
      FarStays(Peeked(v, tries[0]), tries[1..], i);
      SumsTail(tries);
    }
  }

  /** Streams that differ only in their bytes. */
  predicate SameShape(v: View, w: View) {
    && v.marked.None? && w.marked.None? && |v.rest| == |w.rest|
    && (v.backed.Some? <==> w.backed.Some?) && Backlog(v) == Backlog(w)
  }

  predicate SameShapeMarked(v: View, w: View) {
    && v.marked.Some? && w.marked.Some? && |v.marked.value| == |w.marked.value| && |v.rest| == |w.rest|
    && (v.backed.Some? <==> w.backed.Some?) && Backlog(v) == Backlog(w)
  }

  lemma {:induction false} ReadsByShape(v: View, w: View, ns: seq<nat>)
    requires SameShapeMarked(v, w) && CanReadAll(v, ns)
    ensures CanReadAll(w, ns) && SameShapeMarked(AfterReads(v, ns), AfterReads(w, ns))
    decreases |ns|
  {
    if |ns| > 0 {
      ReadsByShape(FreshRead(v, ns[0]), FreshRead(w, ns[0]), ns[1..]);
    }
  }

  lemma {:induction false} TriesByShape(v: View, w: View, tries: seq<seq<nat>>)
    requires SameShape(v, w) && CanTryAll(v, tries)
    ensures CanTryAll(w, tries)
    decreases |tries|
  {
    if |tries| > 0 {
      ReadsByShape(Marked(v), Marked(w), tries[0]);
      TriesByShape(Peeked(v, tries[0]), Peeked(w, tries[0]), tries[1..]);
    }
  }

  /** A stream of zeros with a one at position `i`. */
  function Spotted(v: View, i: nat): (w: View)
    requires v.marked.None?
    ensures SameShape(v, w)
    ensures Unread(w) == seq(|Unread(v)|, j => if j == i then 1 else 0)
  {
    var b := Backlog(v);
    var front: Bytes := seq(b, j => if j == i then 1 else 0);
    var back: Bytes := seq(|v.rest|, j => if b + j == i then 1 else 0);
    var all: Bytes := seq(|Unread(v)|, j => if j == i then 1 else 0);
    assert front + back == all;
    View(if v.backed.Some? then Some(front) else None, None, back)
  }

  /**
   A row of attempts gives back the stream, whatever its bytes, if and only if at each size of the replay
   buffer the bytes taken add up to a multiple of that size before it grows.
   */
  lemma TriesRestoreIff(v: View, tries: seq<seq<nat>>)
    requires v.marked.None? && CanTryAll(v, tries)
    ensures (forall w: View :: SameShape(v, w) ==> CanTryAll(w, tries) && Unread(AfterTries(w, tries)) == Unread(w))
            <==> Restoring(Backlog(v), 0, Sums(tries))
  {
    var b, ts := Backlog(v), Sums(tries);
    if Restoring(b, 0, ts) {
      forall w: View | SameShape(v, w) ensures CanTryAll(w, tries) && Unread(AfterTries(w, tries)) == Unread(w) {
        TriesByShape(v, w, tries);
        RestoringRestores(w, tries);
      }
    } else if forall w: View :: SameShape(v, w) ==> CanTryAll(w, tries) && Unread(AfterTries(w, tries)) == Unread(w) {
      forall i: nat {:trigger Source(b, ts, i)} | i >= 0 ensures Rot(b, 0, Source(b, ts, i)) == i {
        RotWhole(b, 0, Source(b, ts, i));
        SpotStays(v, tries, i);
      }
      IdentityIsRestoring(b, 0, ts, 0);
    }
  }

  lemma RestoringRestores(w: View, tries: seq<seq<nat>>)
    requires w.marked.None? && CanTryAll(w, tries) && Restoring(Backlog(w), 0, Sums(tries))
    ensures Unread(AfterTries(w, tries)) == Unread(w)
  {
    forall i | 0 <= i < |Unread(w)|
      ensures |Unread(AfterTries(w, tries))| == |Unread(w)| && Unread(AfterTries(w, tries))[i] == Unread(w)[i]
    {
      TriesSource(w, tries, i);
      RestoringIsIdentity(Backlog(w), 0, Sums(tries), i);
      RotWhole(Backlog(w), 0, Source(Backlog(w), Sums(tries), i));
    }
    LengthStays(w, tries);
  }

  lemma {:induction false} LengthStays(w: View, tries: seq<seq<nat>>)
    requires w.marked.None? && CanTryAll(w, tries)
    ensures |Unread(AfterTries(w, tries))| == |Unread(w)|
    decreases |tries|
  {
    if |tries| > 0 {
      PeekSource(w, tries[0]);
      LengthStays(Peeked(w, tries[0]), tries[1..]);
    }
  }

  lemma SpotStays(v: View, tries: seq<seq<nat>>, i: nat)
    requires v.marked.None? && CanTryAll(v, tries)
    requires forall w: View :: SameShape(v, w) ==> CanTryAll(w, tries) && Unread(AfterTries(w, tries)) == Unread(w)
    ensures Source(Backlog(v), Sums(tries), i) == i
  {
    if i >= |Unread(v)| {
      FarStays(v, tries, i);
    } else {
      var w := Spotted(v, i);
      TriesSource(w, tries, i);
    }
  }
}
