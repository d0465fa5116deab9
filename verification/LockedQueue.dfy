/** `lock_queue<Member>`: the recycling pool of Member objects. */
module LockedQueue {
  import opened Members

  class LockQueue {
    const maxPoolSize: nat
    var freeList: seq<Member>
    ghost var created: set<Member>
    ghost var deleted: set<Member>

    ghost predicate Valid()
      reads this
    {
      && deleted <= created
      && (forall m :: m in freeList ==> m in created && m !in deleted)
      && (forall i, j :: 0 <= i < j < |freeList| ==> freeList[i] != freeList[j])
    }

    /** In use: created, not deleted and not in the pool. */
    ghost predicate Out(m: Member)
      reads this
    {
      m in created && m !in deleted && m !in freeList
    }

    constructor (maxPoolSize: nat)
      ensures Valid() && freeList == [] && created == deleted == {}
      ensures this.maxPoolSize == maxPoolSize
    {
      this.maxPoolSize := maxPoolSize;
      freeList := [];
      created, deleted := {}, {};
    }

    method Allocate() returns (m: Member)
      requires Valid()
      modifies this
      ensures Valid() && Out(m) && deleted == old(deleted)
      ensures forall o :: o in old(created) && o != m ==> (Out(o) <==> old(Out(o)))
      ensures old(freeList) == [] ==> fresh(m) && freeList == [] && created == old(created) + {m}
      ensures old(freeList) != [] ==>
                freeList + [m] == old(freeList) && created == old(created)
    {
      if freeList == [] {
        m := new Member();
        created := created + {m};
      } else {
        m := freeList[|freeList| - 1];
        freeList := freeList[..|freeList| - 1];
      }
    }

    /** `delete`: allowed once for each object. */
    ghost method Delete(m: Member)
      requires m in created && m !in deleted
      modifies this`deleted
      ensures deleted == old(deleted) + {m}
    {
      deleted := deleted + {m};
    }

    method Deallocate(m: Member?)
      requires Valid() && (m != null ==> Out(m))
      modifies this
      ensures Valid() && created == old(created)
      ensures m == null ==> freeList == old(freeList) && deleted == old(deleted)
      ensures m != null && maxPoolSize < |old(freeList)| ==> freeList == old(freeList) && deleted == old(deleted) + {m}
      ensures m != null && maxPoolSize >= |old(freeList)| ==> freeList == old(freeList) + [m] && deleted == old(deleted)
    {
      if m == null {
        return;
      }
      if maxPoolSize < |freeList| {
        Delete(m);
        return;
      }
      freeList := freeList + [m];
    }

    /** Also what the destructor does: everything in the pool is deleted, each object once. */
    method Clear()
      requires Valid()
      modifies this, set m | m in freeList
      ensures Valid() && freeList == [] && created == old(created)
      ensures deleted == old(deleted) + set m | m in old(freeList)
    {
      for i := 0 to |freeList|
        invariant freeList == old(freeList) && created == old(created) && deleted <= created
        invariant deleted == old(deleted) + set m | m in freeList[..i]
      {
        assert freeList[i] !in freeList[..i];
        freeList[i].Clear();
        Delete(freeList[i]);
        assert freeList[..i + 1] == freeList[..i] + [freeList[i]];
      }
      assert freeList[..|freeList|] == freeList;
      freeList := [];
    }
  }
}
