/** Marking and rewinding a stream, as functions of what is buffered and what is still to come. */
module FallbackSpec {
  import opened Common

  /** The replay buffer, the bytes seen since the mark, and what the target still has to deliver. */
  datatype View = View(backed: Option<Bytes>, marked: Option<Bytes>, rest: Bytes)

  function OrEmpty(b: Option<Bytes>): Bytes {
    if b.Some? then b.value else []
  }

  /** What reads yield from now on. */
  function Unread(v: View): Bytes {
    OrEmpty(v.backed) + v.rest
  }

  /** A read does not reach past the replay buffer, not even when the buffer is empty. */
  predicate CanRead(v: View, n: nat) {
    n <= if v.backed.Some? then |v.backed.value| else |v.rest|
  }

  /** A read of `n` bytes after which the caller's buffer holds `filled`. */
  function AfterRead(v: View, n: nat, filled: Bytes): View
    requires CanRead(v, n)
  {
    var m := if v.marked.Some? then Some(v.marked.value + filled) else None;
    if v.backed.None? then View(None, m, v.rest[n..])
    else if n < |v.backed.value| then View(Some(v.backed.value[n..]), m, v.rest)
    else View(None, m, v.rest)
  }

  function Marked(v: View): View {
    if v.marked.Some? then v else v.(marked := Some([]))
  }

  function Rewound(v: View): View {
    if v.marked.None? then v
    else View(Some(OrEmpty(v.backed) + v.marked.value), None, v.rest)
  }

  /** Both buffers are dropped. */
  function Forgotten(v: View): View {
    View(None, None, v.rest)
  }

  // ---- Reads with fresh buffers ----

  predicate CanReadAll(v: View, ns: seq<nat>)
    decreases |ns|
  {
    |ns| == 0 || (CanRead(v, ns[0]) && CanReadAll(FreshRead(v, ns[0]), ns[1..]))
  }

  function FreshRead(v: View, n: nat): View
    requires CanRead(v, n)
  {
    AfterRead(v, n, Unread(v)[..n])
  }

  function AfterReads(v: View, ns: seq<nat>): View
    requires CanReadAll(v, ns)
    decreases |ns|
  {
    if |ns| == 0 then v else AfterReads(FreshRead(v, ns[0]), ns[1..])
  }

  function Sum(ns: seq<nat>): nat
    decreases |ns|
  {
    if |ns| == 0 then 0 else ns[0] + Sum(ns[1..])
  }

  /** With nothing buffered the stream is its target. */
  lemma PlainRead(rest: Bytes, n: nat)
    requires n <= |rest|
    ensures var v := View(None, None, rest);
            CanRead(v, n) && Unread(v) == rest && FreshRead(v, n) == View(None, None, rest[n..])
  {
    assert [] + rest == rest;
  }

  lemma FreshReadTakes(v: View, n: nat)
    requires CanRead(v, n)
    ensures n <= |Unread(v)|
    ensures Unread(FreshRead(v, n)) == Unread(v)[n..]
    ensures v.marked.Some? ==> FreshRead(v, n).marked == Some(v.marked.value + Unread(v)[..n])
    ensures v.marked.None? ==> FreshRead(v, n).marked == None
    ensures |OrEmpty(FreshRead(v, n).backed)| == if |OrEmpty(v.backed)| > n then |OrEmpty(v.backed)| - n else 0
  {
  }

  /** Reads of any sizes deliver the stream in order and remember it while the mark is set. */
  lemma {:induction false} ReadsTake(v: View, ns: seq<nat>)
    requires CanReadAll(v, ns)
    ensures Sum(ns) <= |Unread(v)|
    ensures Unread(AfterReads(v, ns)) == Unread(v)[Sum(ns)..]
    ensures v.marked.Some? ==> AfterReads(v, ns).marked == Some(v.marked.value + Unread(v)[..Sum(ns)])
    ensures v.marked.None? ==> AfterReads(v, ns).marked == None
    ensures |OrEmpty(AfterReads(v, ns).backed)| == if |OrEmpty(v.backed)| > Sum(ns) then |OrEmpty(v.backed)| - Sum(ns) else 0
    decreases |ns|
  {
    hide Unread, OrEmpty, FreshRead, CanRead;
    var u := Unread(v);
    if |ns| > 0 {
      var n, w, more := ns[0], FreshRead(v, ns[0]), Sum(ns[1..]);
      FreshReadTakes(v, n);
      ReadsTake(w, ns[1..]);
      assert u[n..][more..] == u[n + more..];
      if v.marked.Some? {
        Assoc(v.marked.value, u[..n], u[n..][..more]);
        assert u[..n] + u[n..][..more] == u[..n + more];
      }
    } else {
      assert u[..0] == [] && u[0..] == u;
      assert v.marked.Some? ==> v.marked.value + u[..0] == v.marked.value;
    }
  }

  lemma {:induction false} ReadsSnoc(v: View, ns: seq<nat>, n: nat)
    requires CanReadAll(v, ns) && CanRead(AfterReads(v, ns), n)
    ensures CanReadAll(v, ns + [n]) && AfterReads(v, ns + [n]) == FreshRead(AfterReads(v, ns), n)
    ensures Sum(ns + [n]) == Sum(ns) + n
    decreases |ns|
  {
    if |ns| == 0 {
      assert ns + [n] == [n] && [n][1..] == [];
    } else {
      ReadsSnoc(FreshRead(v, ns[0]), ns[1..], n);
      assert (ns + [n])[1..] == ns[1..] + [n];
    }
  }

  /** Reads never leave an empty replay buffer behind. */
  lemma {:induction false} ReplayNeverEmpty(v: View, ns: seq<nat>)
    requires CanReadAll(v, ns) && AfterReads(v, ns).backed == Some([])
    ensures v.backed == Some([]) && ns == []
    decreases |ns|
  {
    if |ns| > 0 {
      ReplayNeverEmpty(FreshRead(v, ns[0]), ns[1..]);
    }
  }

  /** One more read continues where the reads before it stopped. */
  lemma NextRead(v: View, ns: seq<nat>, n: nat)
    requires CanReadAll(v, ns) && CanRead(AfterReads(v, ns), n)
    ensures CanReadAll(v, ns + [n]) && AfterReads(v, ns + [n]) == FreshRead(AfterReads(v, ns), n)
    ensures Sum(ns + [n]) == Sum(ns) + n <= |Unread(v)|
    ensures n <= |Unread(AfterReads(v, ns))|
    ensures Unread(v)[..Sum(ns)] + Unread(AfterReads(v, ns))[..n] == Unread(v)[..Sum(ns) + n]
  {
    ReadsSnoc(v, ns, n);
    ReadsTake(v, ns);
    ReadsTake(v, ns + [n]);
  }

  /** Mark, reads, rewind. */
  function Peeked(v: View, ns: seq<nat>): View
    requires CanReadAll(Marked(v), ns)
  {
    Rewound(AfterReads(Marked(v), ns))
  }

  /**
   What a rewind does to the stream: the bytes seen since the mark go behind those of the replay
   buffer that the reads left over.
   */
  lemma PeekRotates(v: View, ns: seq<nat>)
    requires v.marked.None? && CanReadAll(Marked(v), ns)
    ensures var t, u := Sum(ns), Unread(v);
            var k := if |OrEmpty(v.backed)| > t then |OrEmpty(v.backed)| else t;
            && t <= k <= |u|
            && Unread(Peeked(v, ns)) == u[t..k] + u[..t] + u[k..]
    ensures Peeked(v, ns).marked == None && Peeked(v, ns).backed.Some?
    ensures var t := Sum(ns);
            |Peeked(v, ns).backed.value| == if |OrEmpty(v.backed)| > t then |OrEmpty(v.backed)| else t
  {
    var m := Marked(v);
    ReadsTake(m, ns);
    var t, u := Sum(ns), Unread(v);
    assert Unread(m) == u;
    var w := AfterReads(m, ns);
    var k := if |OrEmpty(v.backed)| > t then |OrEmpty(v.backed)| else t;
    assert Unread(w) == u[t..];
    assert OrEmpty(w.backed) == Unread(w)[..k - t] == u[t..k];
    assert w.rest == Unread(w)[k - t..] == u[k..];
    assert w.marked.value == [] + u[..t] == u[..t];
  }

  /** The reads since the mark did not stop inside an old replay buffer. */
  predicate Clean(backlog: nat, ns: seq<nat>) {
    Sum(ns) == 0 || Sum(ns) >= backlog
  }

  lemma CleanPeekRestores(v: View, ns: seq<nat>)
    requires v.marked.None? && CanReadAll(Marked(v), ns) && Clean(|OrEmpty(v.backed)|, ns)
    ensures Unread(Peeked(v, ns)) == Unread(v)
  {
    PeekRotates(v, ns);
    var t, u := Sum(ns), Unread(v);
    var k := if |OrEmpty(v.backed)| > t then |OrEmpty(v.backed)| else t;
    if t == 0 {
      assert u[t..k] + u[..t] + u[k..] == u[..k] + u[k..] == u;
    } else {
      assert u[t..k] + u[..t] + u[k..] == u[..k] + u[k..] == u;
    }
  }

  /**
   Rewinding gives back exactly the stream there was at the mark, whatever its bytes, if and only if
   the reads in between took nothing or at least the whole of the old replay buffer.
   */
  lemma PeekRestoresIffClean(backlog: nat, ns: seq<nat>)
    ensures (forall v: View :: v.marked.None? && |OrEmpty(v.backed)| == backlog && CanReadAll(Marked(v), ns)
                        ==> Unread(Peeked(v, ns)) == Unread(v))
            <==> Clean(backlog, ns)
  {
    if Clean(backlog, ns) {
      forall v: View | v.marked.None? && |OrEmpty(v.backed)| == backlog && CanReadAll(Marked(v), ns)
        ensures Unread(Peeked(v, ns)) == Unread(v)
      {
        CleanPeekRestores(v, ns);
      }
    } else {
      var v := Striped(Sum(ns), backlog);
      BacklogAllowsReads(Marked(v), ns);
      PeekRotates(v, ns);
      var u := Unread(v);
      assert u == v.backed.value;
      assert (u[Sum(ns)..backlog] + u[..Sum(ns)] + u[backlog..])[0] == 1;
      assert u[0] == 0;
    }
  }

  /** A replay buffer of `t` zeros and then ones. */
  function Striped(t: nat, backlog: nat): (v: View)
    requires t < backlog
    ensures v.marked.None? && |OrEmpty(v.backed)| == backlog
  {
    View(Some(seq(backlog, i => if i < t then 0 else 1)), None, [])
  }

  lemma {:induction false} BacklogAllowsReads(v: View, ns: seq<nat>)
    requires v.backed.Some? && Sum(ns) < |v.backed.value|
    ensures CanReadAll(v, ns)
    decreases |ns|
  {
    if |ns| > 0 {
      BacklogAllowsReads(FreshRead(v, ns[0]), ns[1..]);
    }
  }

  // ---- A row of attempts, each behind its own mark ----

  function Max(a: nat, b: nat): nat {
    if a > b then a else b
  }

  predicate CanTryAll(v: View, tries: seq<seq<nat>>)
    decreases |tries|
  {
    |tries| == 0 || (CanReadAll(Marked(v), tries[0]) && CanTryAll(Peeked(v, tries[0]), tries[1..]))
  }

  function AfterTries(v: View, tries: seq<seq<nat>>): View
    requires CanTryAll(v, tries)
    decreases |tries|
  {
    if |tries| == 0 then v else AfterTries(Peeked(v, tries[0]), tries[1..])
  }

  /** Each attempt reads nothing or at least as much as the longest attempt before it. */
  predicate AllClean(backlog: nat, tries: seq<seq<nat>>)
    decreases |tries|
  {
    |tries| == 0 || (Clean(backlog, tries[0]) && AllClean(Max(backlog, Sum(tries[0])), tries[1..]))
  }

  /** Then the stream is as it was after all of them. */
  lemma {:induction false} TriesRestore(v: View, tries: seq<seq<nat>>)
    requires v.marked.None? && CanTryAll(v, tries) && AllClean(|OrEmpty(v.backed)|, tries)
    ensures Unread(AfterTries(v, tries)) == Unread(v)
    ensures AfterTries(v, tries).marked.None?
    ensures |OrEmpty(v.backed)| <= |OrEmpty(AfterTries(v, tries).backed)|
    decreases |tries|
  {
    if |tries| > 0 {
      PeekRotates(v, tries[0]);
      CleanPeekRestores(v, tries[0]);
      TriesRestore(Peeked(v, tries[0]), tries[1..]);
    }
  }

  /** Two attempts of which the second reads less than the first: the stream comes back rotated. */
  lemma SecondShorterTryRotates()
    ensures var v := View(None, None, [10, 20, 30]);
            && CanTryAll(v, [[2], [1]])
            && Unread(AfterTries(v, [[2], [1]])) == [20, 10, 30]
  {
    var v := View(None, None, [10, 20, 30]);
    assert [[2], [1]][1..] == [[1]] && [[1]][1..] == [];
    assert Sum([2]) == 2 && Sum([1]) == 1;
    assert CanReadAll(Marked(v), [2]);
    PeekRotates(v, [2]);
    var w := Peeked(v, [2]);
    assert Unread(w) == [10, 20, 30];
    assert CanReadAll(Marked(w), [1]);
    PeekRotates(w, [1]);
    var x := Peeked(w, [1]);
    assert Unread(x) == [20, 10, 30];
    assert AfterTries(x, []) == x && AfterTries(w, [[1]]) == x;
  }
}
