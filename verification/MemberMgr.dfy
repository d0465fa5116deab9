/** The cache of online members: a map of pointers, with the pool the objects come from and go back to. */
module MemberMgr {
  import opened Wrappers
  import opened KeyOrder
  import opened Recommend
  import opened Directory
  import opened Accounting
  import opened Members
  import opened LockedQueue

  class Manager {
    var onlineMember: map<string, Member?>
    const pool: LockQueue
    ghost var orphaned: set<Member>   // refused by `insert`; nothing points to them any more
    ghost var inFlight: set<Member>   // allocated, not yet handed to AddMember

    /**
     Ownership. Every object created is in exactly one place: under one key of the map, which is its pk, in
     the pool, deleted, orphaned, or in flight.
     */
    ghost predicate Valid()
      reads this, pool, pool.created
    {
      && pool.Valid()
      && (forall k :: k in onlineMember ==>
            var m := onlineMember[k];
            m != null && pool.Out(m) && m !in orphaned && m !in inFlight && m.pk == k)
      && (forall m :: m in orphaned ==> pool.Out(m) && m !in inFlight)
      && (forall m :: m in inFlight ==> pool.Out(m))
      && (forall m :: m in pool.created ==>
            m in pool.deleted || m in pool.freeList || m in orphaned || m in inFlight || Cached(m))
    }

    ghost predicate Cached(m: Member)
      reads this, m
    {
      m.pk in onlineMember && onlineMember[m.pk] == m
    }

    /** What the map means: from key to record. */
    ghost function Cache(): (c: map<string, Row>)
      requires Valid()
      reads this, pool, pool.created
      ensures c.Keys == onlineMember.Keys
    {
      map k | k in onlineMember :: onlineMember[k].Contents()
    }

    lemma PooledAreCreated()
      requires Valid()
      ensures forall m :: m in pool.freeList ==> m in pool.created
    {
    }

    ghost function Census(): Counts
      reads this, pool
    {
      Counts(|pool.created|, |pool.freeList|, |pool.deleted|, |orphaned|)
    }

    /**
     Writing through the pointer `FindMember` gave out changes the one record under its key and no other, as
     long as the pk is left alone.
     */
    twostate lemma WriteThrough(pk: string)
      requires old(Valid()) && pk in onlineMember && onlineMember[pk] != null
      requires unchanged(this) && unchanged(pool)
      requires forall o :: o in pool.created && o != onlineMember[pk] ==> unchanged(o)
      requires onlineMember[pk].pk == pk
      ensures Valid() && Cache() == old(Cache())[pk := onlineMember[pk].Contents()]
    {
    }

    /** Filling in an object that is still in flight changes nothing the map means. */
    twostate lemma WriteInFlight(m: Member)
      requires old(Valid()) && m in inFlight
      requires unchanged(this) && unchanged(pool)
      requires forall o :: o in pool.created && o != m ==> unchanged(o)
      ensures Valid() && Cache() == old(Cache())
    {
    }

    twostate lemma SameCache()
      requires old(Valid()) && Valid() && onlineMember == old(onlineMember)
      requires forall o :: o in old(pool.created) ==> unchanged(o)
      ensures Cache() == old(Cache())
    {
    }

    twostate lemma CacheWithout(pk: string)
      requires old(Valid()) && Valid() && onlineMember == old(onlineMember) - {pk}
      requires forall o :: o in old(pool.created) ==> unchanged(o)
      ensures Cache() == old(Cache()) - {pk}
    {
    }

    constructor (maxPoolSize: nat)
      ensures Valid() && Cache() == map[] && orphaned == inFlight == {}
      ensures fresh(pool) && pool.created == {} && pool.maxPoolSize == maxPoolSize && Census() == NOTHING
    {
      onlineMember := map[];
      pool := new LockQueue(maxPoolSize);
      orphaned, inFlight := {}, {};
    }

    /** An object that has left the pool, or has just been made, is in flight and nowhere else. */
    twostate lemma FetchedIsOwned(new m: Member)
      requires old(Valid()) && pool.Valid() && pool.Out(m)
      requires unchanged(this`onlineMember) && unchanged(this`orphaned) && inFlight == old(inFlight) + {m}
      requires forall o :: o in old(pool.created) ==> unchanged(o)
      requires pool.deleted == old(pool.deleted)
      requires || (m in old(pool.freeList) && pool.created == old(pool.created))
               || (fresh(m) && pool.created == old(pool.created) + {m})
      requires forall o :: o in old(pool.created) && o != m ==> (pool.Out(o) <==> old(pool.Out(o)))
      ensures Valid() && m !in old(inFlight)
    {
    }

    /** Out of the pool and in flight, with whatever its last user left in it. */
    method Fetch() returns (m: Member)
      requires Valid()
      modifies this`inFlight, pool
      ensures Valid() && Cache() == old(Cache())
      ensures m !in old(inFlight) && inFlight == old(inFlight) + {m}
      ensures Census() == Take(old(Census()))
      ensures m in old(pool.freeList) || fresh(m)
      ensures old(pool.created) <= pool.created && fresh(pool.created - old(pool.created))
    {
      hide Cache;
      m := pool.Allocate();
      inFlight := inFlight + {m};
      FetchedIsOwned(m);
      hide Valid;
      SameCache();
    }

    method Reset(m: Member)
      requires Valid() && m in inFlight
      modifies m
      ensures Valid() && Cache() == old(Cache()) && m.Blank()
    {
      m.Clear();
      WriteInFlight(m);
    }

    method Allocate() returns (m: Member)
      requires Valid()
      modifies this`inFlight, pool, set o | o in pool.freeList
      ensures Valid() && Cache() == old(Cache()) && m.Blank()
      ensures m !in old(inFlight) && inFlight == old(inFlight) + {m}
      ensures Census() == Take(old(Census()))
      ensures m in old(pool.freeList) || fresh(m)
      ensures old(pool.created) <= pool.created && fresh(pool.created - old(pool.created))
    {
      hide Valid;
      hide Cache;
      m := Fetch();
      Reset(m);
    }

    /** The key is taken: the map keeps what it has and nothing points to the object any more. */
    ghost method Orphan(m: Member)
      requires Valid() && m in inFlight
      modifies this`inFlight, this`orphaned
      ensures Valid() && Cache() == old(Cache())
      ensures inFlight == old(inFlight) - {m} && orphaned == old(orphaned) + {m}
      ensures Census() == Insert(old(Census()), true)
    {
      inFlight := inFlight - {m};
      orphaned := orphaned + {m};
    }

    method Link(m: Member)
      requires Valid() && m in inFlight && m.pk !in onlineMember
      modifies this`inFlight, this`onlineMember
      ensures Valid() && Cache() == old(Cache())[m.pk := m.Contents()]
      ensures inFlight == old(inFlight) - {m} && Census() == old(Census())
    {
      inFlight := inFlight - {m};
      onlineMember := onlineMember[m.pk := m];
    }

    /** `insert`: the first one in wins. */
    method AddMember(m: Member)
      requires Valid() && m in inFlight
      modifies this
      ensures Valid()
      ensures Cache() == InsertNew(old(Cache()), m.pk, m.Contents())
      ensures inFlight == old(inFlight) - {m}
      ensures orphaned == if m.pk in old(Cache()) then old(orphaned) + {m} else old(orphaned)
      ensures Census() == Insert(old(Census()), m.pk in old(Cache()))
    {
      if m.pk in onlineMember {
        assert m.pk in Cache();
        Orphan(m);
      } else {
        assert m.pk !in Cache();
        Link(m);
      }
    }

    method FindMember(pk: string) returns (m: Member?)
      requires Valid()
      ensures m == null <==> pk !in Cache()
      ensures m != null ==> m == onlineMember[pk] && m in pool.created && m.pk == pk && m.Contents() == Cache()[pk]
    {
      if pk in onlineMember {
        return onlineMember[pk];
      }
      return null;
    }

    /** An entry is erased, and its object is in the pool or deleted. */
    twostate lemma ErasedIsOwned(pk: string)
      requires old(Valid()) && pool.Valid() && pk in old(onlineMember) && old(onlineMember)[pk] != null
      requires onlineMember == old(onlineMember) - {pk} && unchanged(this`orphaned) && unchanged(this`inFlight)
      requires pool.created == old(pool.created) && forall o :: o in pool.created ==> unchanged(o)
      requires var m := old(onlineMember)[pk];
               || (pool.freeList == old(pool.freeList) + [m] && pool.deleted == old(pool.deleted))
               || (pool.freeList == old(pool.freeList) && pool.deleted == old(pool.deleted) + {m})
      ensures Valid()
    {
    }

    method DelMember(pk: string)
      requires Valid()
      modifies this, pool
      ensures Valid()
      ensures onlineMember == old(onlineMember) - {pk} && Cache() == old(Cache()) - {pk}
      ensures orphaned == old(orphaned) && inFlight == old(inFlight) && pool.created == old(pool.created)
      ensures Census() == if pk in old(onlineMember) then GiveBack(pool.maxPoolSize, old(Census())) else old(Census())
    {
      hide Cache;
      if pk in onlineMember {
        if onlineMember[pk] != null {
          pool.Deallocate(onlineMember[pk]);
          onlineMember := onlineMember - {pk};
          ErasedIsOwned(pk);
        }
      }
      hide Valid;
      CacheWithout(pk);
    }

    /** `roll` is what `rand()` answers. */
    method RandomMember(pk: string, roll: nat) returns (m: Member?)
      requires Valid()
      ensures match Choose(Cache().Keys, pk, roll)
              case None => m == null
              case Some(p) => p in onlineMember && m == onlineMember[p] && m != null
                              && m.pk == p && m.Contents() == Cache()[p]
    {
      ChooseFindsSomeoneElse(onlineMember.Keys, pk, roll);
      var rest := onlineMember - {pk};
      assert rest.Keys == onlineMember.Keys - {pk};
      var order := KeysInOrder(rest.Keys);
      if |order| != 0 {
        var chosen := order[roll % |order|];
        assert chosen in rest.Keys;
        if rest[chosen] != null {
          return rest[chosen];
        }
      }
      return null;
    }

    /** The destructor: every cached object goes back to the pool, or is deleted if the pool is full. */
    method Destroy()
      requires Valid() && inFlight == {}
      modifies this, pool
      ensures Valid() && inFlight == {} && onlineMember == map[]
      ensures orphaned == old(orphaned) && pool.created == old(pool.created)
    {
      // Every entry the iterator meets is erased, so it always stands on the first one left.
      while onlineMember.Keys != {}
        invariant Valid() && inFlight == {} && orphaned == old(orphaned) && pool.created == old(pool.created)
        decreases onlineMember.Keys
      {
        DelMember(LeastKey(onlineMember.Keys));
      }
    }

    /**
     The destructor followed by the pool's: every object that is not orphaned is deleted, and once, since
     `Delete` does not accept a deleted object.
     */
    method Shutdown()
      requires Valid() && inFlight == {}
      modifies this, pool, pool.created
      ensures onlineMember == map[] && pool.freeList == []
      ensures orphaned == old(orphaned) && pool.created == old(pool.created)
      ensures pool.deleted == pool.created - orphaned
    {
      Destroy();
      assert forall m :: m in pool.created ==> m in pool.deleted || m in pool.freeList || m in orphaned;
      pool.Clear();
    }
  }
}
