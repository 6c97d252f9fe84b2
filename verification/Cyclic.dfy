/**
 Probing a table keyed by u32 for a free key, starting anywhere and wrapping past 2^32 - 1.
 Both id allocators of the program (the waiting list of the server and the conversation
 numbers of the KCP connector) are loops over this probe sequence.
 */
module Cyclic {
  import opened Common

  /** The k-th key probed from `start`. */
  function At(start: u32, k: nat): u32 {
    (start + k) % 0x1_0000_0000
  }

  /** Addition of one with the wrap to zero that `overflowing_add` reports. */
  function Succ(x: u32): u32 {
    if x + 1 == 0x1_0000_0000 then 0 else x + 1
  }

  lemma SuccIsNextProbe(start: u32, k: nat)
    ensures Succ(At(start, k)) == At(start, k + 1)
  {
  }

  lemma AtInjective(start: u32, j: nat, k: nat)
    requires j < k <= 0x1_0000_0000 && k - j < 0x1_0000_0000
    ensures At(start, j) != At(start, k)
  {
  }

  /** `id` is the first key from `start`, in cyclic order, that is not taken. */
  ghost predicate IsNextFree(taken: set<u32>, start: u32, id: u32) {
    exists k: nat :: FreeAfter(taken, start, k) && id == At(start, k)
  }

  /** The k-th probe is free and the k probes before it are all taken. */
  ghost predicate FreeAfter(taken: set<u32>, start: u32, k: nat) {
    && k < 0x1_0000_0000
    && At(start, k) !in taken
    && TakenBefore(taken, start, k)
  }

  ghost predicate TakenBefore(taken: set<u32>, start: u32, k: nat) {
    forall j: nat {:trigger At(start, j)} :: j < k ==> At(start, j) in taken
  }

  ghost function Probed(start: u32, k: nat): set<u32> {
    set j: nat | j < k :: At(start, j)
  }

  lemma {:induction false} ProbedSize(start: u32, k: nat)
    requires k <= 0x1_0000_0000
    ensures |Probed(start, k)| == k
  {
    if k == 0 {
      assert Probed(start, 0) == {};
    } else {
      ProbedSize(start, k - 1);
      assert Probed(start, k) == Probed(start, k - 1) + {At(start, k - 1)};
      forall j: nat | j < k - 1 ensures At(start, j) != At(start, k - 1) {
        AtInjective(start, j, k - 1);
      }
    }
  }

  lemma SubsetSize<T>(a: set<T>, b: set<T>)
    requires a <= b
    ensures |a| <= |b|
  {
    assert b == a + (b - a);
  }

  /** A run of k taken probes needs k taken keys: the walk is at most as long as the table. */
  lemma TakenRunIsShort(taken: set<u32>, start: u32, k: nat)
    requires k <= 0x1_0000_0000 && TakenBefore(taken, start, k)
    ensures k <= |taken|
  {
    ProbedSize(start, k);
    SubsetSize(Probed(start, k), taken);
  }

  /** A full turn of taken probes means that every u32 is taken, and conversely. */
  lemma FullTurn(taken: set<u32>, start: u32)
    ensures TakenBefore(taken, start, 0x1_0000_0000) <==> forall x: u32 :: x in taken
  {
    if TakenBefore(taken, start, 0x1_0000_0000) {
      forall x: u32 ensures x in taken {
        var j: nat := if x >= start then x - start else x + 0x1_0000_0000 - start;
        assert At(start, j) == x;
      }
    }
  }

  /** The next free key is unique, so an allocator specified by it is deterministic. */
  lemma NextFreeUnique(taken: set<u32>, start: u32, a: u32, b: u32)
    requires IsNextFree(taken, start, a) && IsNextFree(taken, start, b)
    ensures a == b
  {
    var j: nat :| FreeAfter(taken, start, j) && a == At(start, j);
    var k: nat :| FreeAfter(taken, start, k) && b == At(start, k);
    assert j == k;
  }
}
