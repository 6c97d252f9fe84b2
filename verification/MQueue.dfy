/** The server's table of visitors that wait for a data connection (src/net/penetrate/server.rs). */
module MQueue {
  import opened Common
  import Cyclic

  class MQueue<T> {
    var identify: u32
    var waitList: map<u32, T>

    constructor ()
      ensures identify == 0 && waitList == map[]
    {
      identify, waitList := 0, map[];
    }

    /**
     Takes the first free id at or after `identify`. The loop of the source runs for ever on a
     full table, hence the precondition. `probes` counts the table look-ups.
     */
    method Push(item: T) returns (id: u32, ghost probes: nat)
      requires |waitList| < U32_LIMIT
      modifies this
      ensures id !in old(waitList)
      ensures Cyclic.IsNextFree(old(waitList).Keys, old(identify), id)
      ensures waitList == old(waitList)[id := item]
      ensures identify == id
      ensures 0 < probes <= old(|waitList|) + 1
      ensures Cyclic.FreeAfter(old(waitList).Keys, old(identify), probes - 1) && id == Cyclic.At(old(identify), probes - 1)
    {
      ghost var taken := waitList.Keys;
      ghost var start := identify;
      ghost var k: nat := 0;
      while identify in waitList
        invariant waitList == old(waitList)
        invariant k <= |taken| && identify == Cyclic.At(start, k)
        invariant Cyclic.TakenBefore(taken, start, k)
        decreases |taken| - k
      {
        assert Cyclic.TakenBefore(taken, start, k + 1);
        Cyclic.TakenRunIsShort(taken, start, k + 1);
        Cyclic.SuccIsNextProbe(start, k);
        if identify + 1 == 0x1_0000_0000 {
          identify := 0;
        } else {
          identify := identify + 1;
        }
        k := k + 1;
      }
      assert Cyclic.FreeAfter(taken, start, k);
      waitList := waitList[identify := item];
      id, probes := identify, k + 1;
    }

    method Remove(id: u32) returns (item: Option<T>)
      modifies this`waitList
      ensures item == if id in old(waitList) then Some(old(waitList)[id]) else None
      ensures waitList == old(waitList) - {id}
    {
      if id in waitList {
        item := Some(waitList[id]);
        waitList := waitList - {id};
      } else {
        item := None;
        assert waitList - {id} == waitList;
      }
    }
  }
}
