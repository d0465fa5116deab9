/**
 The connection pool as the running bot uses it: one thread, one call after the other. Each call is proved to be
 an uninterrupted passage of one thread through the protocol of `ConnectionPool`, so that what is proved there of
 every schedule holds of these objects.
 */
module DBConn {
  import P = ConnectionPool

  class Connection {
    ghost const id: nat     // how many connections the pool created before this one

    constructor (ghost id: nat)
      ensures this.id == id
    {
      this.id := id;
    }
  }

  ghost function Ids(conns: seq<Connection>): (r: seq<nat>)
    ensures |r| == |conns|
  {
    seq(|conns|, i requires 0 <= i < |conns| => conns[i].id)
  }

  ghost function IdSet(conns: set<Connection>): set<nat> {
    set c | c in conns :: c.id
  }

  lemma IdsOfLonger(conns: seq<Connection>, c: Connection)
    ensures Ids(conns + [c]) == Ids(conns) + [c.id]
  {
  }

  lemma IdsOfShorter(conns: seq<Connection>)
    requires conns != []
    ensures Ids(conns[..|conns| - 1]) == Ids(conns)[..|conns| - 1]
  {
  }

  lemma IdSetOfMore(conns: set<Connection>, c: Connection)
    ensures IdSet(conns + {c}) == IdSet(conns) + {c.id}
  {
  }

  class Pool {
    const maxConn: nat
    var freeList: seq<Connection>
    ghost var created: set<Connection>
    ghost var held: set<Connection>       // given out and not released
    ghost var destroyed: set<Connection>
    ghost var count: nat                  // connections created so far
    ghost var moves: seq<P.Move>          // the moves of the one thread so far

    ghost predicate Valid()
      reads this`freeList, this`created, this`held, this`destroyed
    {
      && (forall i, j :: 0 <= i < j < |freeList| ==> freeList[i] != freeList[j])
      && (forall c :: c in freeList ==> c in created && c !in held && c !in destroyed)
      && held <= created && destroyed <= created && held !! destroyed
      && (forall c :: c in created ==> c in freeList || c in held || c in destroyed)
    }

    /** Connections are numbered in the order they are created. */
    ghost predicate Numbered()
      reads this`created, this`count
    {
      && |created| == count
      && (forall c :: c in created ==> c.id < count)
      && (forall c, d :: c in created && d in created && c != d ==> c.id != d.id)
    }

    ghost function Live(): nat
      reads this
    {
      |freeList| + |held|
    }

    /** The protocol's view of this pool, with its one thread at `pc`. */
    ghost function Abs(pc: P.Pc): P.Pool
      reads this
    {
      P.Pool([pc], P.Free, Ids(freeList), count, IdSet(destroyed), false)
    }

    /** The pool is where the protocol takes one thread by the moves made so far. */
    ghost predicate Follows(pc: P.Pc)
      reads this
    {
      Abs(pc) == P.Run(maxConn, P.Start(1), moves)
    }

    /** Between two calls of the bot: nothing is given out, and the thread is outside the pool. */
    ghost predicate AtRest()
      reads this
    {
      Valid() && Numbered() && held == {} && Follows(P.Idle)
    }

    /** In the middle of a call: `conn` is given out, and there is no other connection. */
    ghost predicate Serves(conn: Connection)
      reads this, conn
    {
      Valid() && Numbered() && held == {conn} && freeList == [] && Follows(P.Holding(conn.id))
    }

    /** What the protocol keeps under every schedule, this pool keeps. */
    lemma FollowsSafely(pc: P.Pc)
      requires Follows(pc)
      ensures P.Exclusive(Abs(pc)) && P.Owned(Abs(pc)) && P.Counted(Abs(pc))
    {
      P.PoolIsSafe(maxConn, 1, moves);
    }

    /** With one thread there is never more than one connection, free or in hand. */
    lemma AtMostOne(pc: P.Pc)
      requires Follows(pc)
      ensures |freeList| + (if P.Has(pc) then 1 else 0) <= 1
    {
      P.LiveWithinThreads(maxConn, 1, moves);
      assert [pc][1..] == [];
    }

    constructor (maxConn: nat)
      ensures AtRest() && created == {}
      ensures this.maxConn == maxConn
    {
      this.maxConn := maxConn;
      freeList := [];
      created, held, destroyed := {}, {}, {};
      count := 0;
      moves := [];
      new;
      assert P.Start(1).threads == [P.Idle];
    }

    /**
     `closed` is what `isClosed()` would answer for the connection on top of the list. The call is an uninterrupted
     passage of the thread through the protocol, from outside the pool to holding the connection.
     */
    method Allocate(closed: bool) returns (conn: Connection)
      requires Valid() && Numbered()
      modifies this
      ensures Valid() && Numbered()
      ensures conn !in old(held) && held == old(held) + {conn}
      ensures Takes(conn, closed)
      ensures Live() == if old(freeList) == [] then |held| else old(Live())
      ensures Abs(P.Holding(conn.id)) == P.Run(maxConn, old(Abs(P.Idle)), P.AllocateAlone(old(Abs(P.Idle)), 0, closed))
      ensures moves == old(moves) + P.AllocateAlone(old(Abs(P.Idle)), 0, closed)
      ensures old(Follows(P.Idle)) ==> Follows(P.Holding(conn.id)) && freeList == []
    {
      hide Valid;
      hide Numbered;
      hide P.Run;
      hide P.Step;
      ghost var before, was := Abs(P.Idle), moves;
      conn := Take(closed);
      TakesAlone(conn, closed);
      ghost var steps := P.AllocateAlone(before, 0, closed);
      moves := moves + steps;
      P.RunSplit(maxConn, P.Start(1), was, steps);
      if Follows(P.Holding(conn.id)) {
        AtMostOne(P.Holding(conn.id));
      }
    }

    /** The lists after `conn` was handed out: made now, popped, or made now in place of one popped and found closed. */
    twostate predicate Takes(new conn: Connection, closed: bool)
      reads this
    {
      if old(freeList) == [] then
        && freeList == [] && destroyed == old(destroyed) && held == old(held) + {conn}
        && fresh(conn) && created == old(created) + {conn} && conn.id == old(count) && count == old(count) + 1
      else
        var last := old(freeList)[|old(freeList)| - 1];
        && freeList == old(freeList)[..|old(freeList)| - 1] && held == old(held) + {conn}
        && if closed then
             && destroyed == old(destroyed) + {last}
             && fresh(conn) && created == old(created) + {conn} && conn.id == old(count) && count == old(count) + 1
           else
             conn == last && destroyed == old(destroyed) && created == old(created) && count == old(count)
    }

    twostate lemma TakesAlone(new conn: Connection, closed: bool)
      requires Takes(conn, closed)
      ensures Abs(P.Holding(conn.id)) == P.Run(maxConn, old(Abs(P.Idle)), P.AllocateAlone(old(Abs(P.Idle)), 0, closed))
    {
      hide P.Run;
      hide P.Step;
      var before := old(Abs(P.Idle));
      if old(freeList) == [] {
        P.AllocateFresh(maxConn, before, 0, closed);
      } else {
        IdsOfShorter(old(freeList));
        if closed {
          P.AllocateClosed(maxConn, before, 0);
          IdSetOfMore(old(destroyed), old(freeList)[|old(freeList)| - 1]);
        } else {
          P.AllocateOpen(maxConn, before, 0);
        }
      }
    }

    twostate lemma TakesSafely(new conn: Connection, closed: bool)
      requires old(Valid()) && Takes(conn, closed)
      ensures Valid() && conn !in old(held)
    {
    }

    /** `allocate` on the objects. */
    method Take(closed: bool) returns (conn: Connection)
      requires Valid() && Numbered()
      modifies this`freeList, this`created, this`held, this`destroyed, this`count
      ensures Valid() && Numbered()
      ensures conn !in old(held)
      ensures Takes(conn, closed)
    {
      hide Valid;
      hide Numbered;
      if freeList == [] {
        conn := Create();
      } else {
        conn := freeList[|freeList| - 1];
        freeList := freeList[..|freeList| - 1];
        if closed {
          conn := Replace(conn);
        }
      }
      held := held + {conn};
      TakesSafely(conn, closed);
    }

    method Replace(conn: Connection) returns (better: Connection)
      requires Numbered()
      modifies this`created, this`count, this`destroyed
      ensures Numbered() && fresh(better) && better.id == old(count)
      ensures created == old(created) + {better} && count == old(count) + 1
      ensures destroyed == old(destroyed) + {conn}
    {
      hide Numbered;
      destroyed := destroyed + {conn};
      better := Create();
    }

    method Create() returns (conn: Connection)
      requires Numbered()
      modifies this`created, this`count
      ensures Numbered() && fresh(conn) && conn.id == old(count)
      ensures created == old(created) + {conn} && count == old(count) + 1
    {
      conn := new Connection(count);
      created := created + {conn};
      count := count + 1;
    }

    /** The way back: an uninterrupted passage from holding the connection to outside the pool. */
    method Release(conn: Connection)
      requires Valid() && Numbered() && conn in held
      modifies this
      ensures Valid() && Numbered()
      ensures held == old(held) - {conn} && created == old(created)
      ensures if |old(freeList)| > maxConn
              then freeList == old(freeList) && destroyed == old(destroyed) + {conn}
              else freeList == old(freeList) + [conn] && destroyed == old(destroyed)
      ensures Abs(P.Idle)
           == P.Run(maxConn, old(Abs(P.Holding(conn.id))), P.ReleaseAlone(maxConn, old(Abs(P.Holding(conn.id))), 0))
      ensures moves == old(moves) + P.ReleaseAlone(maxConn, old(Abs(P.Holding(conn.id))), 0)
      ensures old(Follows(P.Holding(conn.id))) ==> Follows(P.Idle) && freeList == [conn]
    {
      hide P.Run;
      hide P.Step;
      ghost var before, was := Abs(P.Holding(conn.id)), moves;
      if Follows(P.Holding(conn.id)) {
        AtMostOne(P.Holding(conn.id));
      }
      held := held - {conn};
      if |freeList| > maxConn {
        P.ReleaseDestroys(maxConn, before, 0);
        IdSetOfMore(destroyed, conn);
        destroyed := destroyed + {conn};
      } else {
        P.ReleaseKeeps(maxConn, before, 0);
        IdsOfLonger(freeList, conn);
        freeList := freeList + [conn];
      }
      ghost var steps := P.ReleaseAlone(maxConn, before, 0);
      moves := moves + steps;
      P.RunSplit(maxConn, P.Start(1), was, steps);
    }

    /** The destructor: every connection in the list is destroyed, each once. */
    method Shutdown()
      requires Valid()
      modifies this
      ensures destroyed == created - held && created == old(created) && held == old(held)
    {
      ghost var was := destroyed;
      for i := 0 to |freeList|
        invariant freeList == old(freeList) && created == old(created) && held == old(held)
        invariant destroyed == was + set c | c in freeList[..i]
      {
        assert freeList[i] !in destroyed;
        destroyed := destroyed + {freeList[i]};
        assert freeList[..i + 1] == freeList[..i] + [freeList[i]];
      }
      assert freeList[..|freeList|] == freeList;
    }
  }
}
