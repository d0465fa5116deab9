/**
 The table of registered members, behind the connection pool. Every operation takes one connection and
 gives it back, whether its statement works (`ok`) or throws. `closed` says whether the server had closed
 the pooled connection in the meantime.
 */
module MemberModel {
  import opened Directory
  import opened Accounting
  import opened Members
  import opened MemberMgr
  import DBConn

  /** The columns of a row, in the order they are read: pk, tok_id, bio, signature, nick_name. */
  const COLUMNS := 5

  class Model {
    var rows: map<string, Row>
    const db: DBConn.Pool

    constructor (rows: map<string, Row>, maxConn: nat)
      ensures this.rows == rows && fresh(db) && db.AtRest() && db.maxConn == maxConn
    {
      this.rows := rows;
      db := new DBConn.Pool(maxConn);
    }

    /** Every operation begins so: one connection is taken, and it is the only one there is. */
    method Connect(closed: bool) returns (conn: DBConn.Connection)
      requires db.AtRest()
      modifies db
      ensures db.Serves(conn)
    {
      hide DBConn.Pool.Valid;
      hide DBConn.Pool.Numbered;
      hide DBConn.Pool.Follows;
      hide DBConn.Pool.Takes;
      hide DBConn.Pool.Abs;
      conn := db.Allocate(closed);
    }

    /** And ends so, on both paths. */
    method Disconnect(conn: DBConn.Connection)
      requires db.Serves(conn)
      modifies db
      ensures db.AtRest()
    {
      hide DBConn.Pool.Valid;
      hide DBConn.Pool.Numbered;
      hide DBConn.Pool.Follows;
      hide DBConn.Pool.Takes;
      hide DBConn.Pool.Abs;
      db.Release(conn);
    }

    /** REPLACE: the row is rewritten as a whole, so the signature goes back to its default. */
    method AddFriend(tokId: string, pk: string, nickName: string, bio: string, closed: bool, ok: bool)
      requires db.AtRest()
      modifies this, db
      ensures db.AtRest()
      ensures rows == if ok then old(rows)[pk := Row(CStr(tokId), CStr(nickName), CStr(bio), "")] else old(rows)
    {
      hide DBConn.Pool.AtRest;
      hide DBConn.Pool.Serves;
      var conn := Connect(closed);
      if ok {
        rows := rows[pk := Row(CStr(tokId), CStr(nickName), CStr(bio), "")];
      }
      Disconnect(conn);
    }

    /** DELETE; answers the number of rows deleted. */
    method DelFriend(pk: string, closed: bool, ok: bool) returns (ret: nat)
      requires db.AtRest()
      modifies this, db
      ensures db.AtRest()
      ensures rows == if ok then old(rows) - {pk} else old(rows)
      ensures ret == if ok && pk in old(rows) then 1 else 0
    {
      hide DBConn.Pool.AtRest;
      hide DBConn.Pool.Serves;
      var conn := Connect(closed);
      ret := 0;
      if ok {
        ret := if pk in rows then 1 else 0;
        rows := rows - {pk};
      }
      Disconnect(conn);
    }

    /** `counted` says whether the driver counts the row it found; answers the count. */
    method UpdateFriendSignature(pk: string, signature: string, closed: bool, ok: bool, counted: bool) returns (ret: nat)
      requires db.AtRest()
      modifies this, db
      ensures db.AtRest()
      ensures rows == if ok && pk in old(rows) then old(rows)[pk := old(rows)[pk].(signature := CStr(signature))] else old(rows)
      ensures ret == if ok && counted && pk in old(rows) then 1 else 0
    {
      hide DBConn.Pool.AtRest;
      hide DBConn.Pool.Serves;
      var conn := Connect(closed);
      ret := 0;
      if ok && pk in rows {
        ret := if counted then 1 else 0;
        rows := rows[pk := rows[pk].(signature := CStr(signature))];
      }
      Disconnect(conn);
    }

    method UpdateFriendBio(pk: string, bio: string, closed: bool, ok: bool)
      requires db.AtRest()
      modifies this, db
      ensures db.AtRest()
      ensures rows == if ok && pk in old(rows) then old(rows)[pk := old(rows)[pk].(bio := CStr(bio))] else old(rows)
    {
      hide DBConn.Pool.AtRest;
      hide DBConn.Pool.Serves;
      var conn := Connect(closed);
      if ok && pk in rows {
        rows := rows[pk := rows[pk].(bio := CStr(bio))];
      }
      Disconnect(conn);
    }

    method UpdateFriendName(pk: string, name: string, closed: bool, ok: bool)
      requires db.AtRest()
      modifies this, db
      ensures db.AtRest()
      ensures rows == if ok && pk in old(rows) then old(rows)[pk := old(rows)[pk].(nickName := CStr(name))] else old(rows)
    {
      hide DBConn.Pool.AtRest;
      hide DBConn.Pool.Serves;
      var conn := Connect(closed);
      if ok && pk in rows {
        rows := rows[pk := rows[pk].(nickName := CStr(name))];
      }
      Disconnect(conn);
    }

    /**
     Fills an object of the members' pool from the row, column by column; the read after the first `columns` throws,
     and leaves the object as far as it has got.
     */
    method ReadRow(mgr: Manager, pk: string, columns: nat) returns (m: Member)
      requires mgr.Valid() && pk in rows
      modifies mgr, mgr.pool, set o | o in mgr.pool.freeList
      ensures mgr.Valid() && mgr.Cache() == old(mgr.Cache()) && mgr.onlineMember == old(mgr.onlineMember)
      ensures m !in old(mgr.inFlight) && mgr.inFlight == old(mgr.inFlight) + {m}
      ensures m.pk == (if columns > 0 then pk else "") && m.tokId == (if columns > 1 then rows[pk].tokId else "")
      ensures m.bio == (if columns > 2 then rows[pk].bio else "")
      ensures m.signature == (if columns > 3 then rows[pk].signature else "")
      ensures m.nickName == (if columns > 4 then rows[pk].nickName else "")
      ensures mgr.Census() == Take(old(mgr.Census()))
      ensures old(mgr.pool.created) <= mgr.pool.created && fresh(mgr.pool.created - old(mgr.pool.created))
    {
      hide Manager.Valid;
      hide Manager.Cache;
      hide Manager.Census;
      m := mgr.Allocate();
      label Taken:
      if columns > 0 { m.pk := pk; }
      if columns > 1 { m.tokId := rows[pk].tokId; }
      if columns > 2 { m.bio := rows[pk].bio; }
      if columns > 3 { m.signature := rows[pk].signature; }
      if columns > 4 { m.nickName := rows[pk].nickName; }
      mgr.WriteInFlight@Taken(m);
    }

    /**
     SELECT: an object for the row, still in flight, or null. An exception while the row is read is caught like one of
     the statement, and the object is answered although it is only half filled.
     */
    method FindFriend(mgr: Manager, pk: string, closed: bool, ok: bool, columns: nat) returns (member: Member?)
      requires db.AtRest() && mgr.Valid()
      modifies db, mgr, mgr.pool, set o | o in mgr.pool.freeList
      ensures db.AtRest()
      ensures mgr.Valid() && mgr.Cache() == old(mgr.Cache()) && mgr.onlineMember == old(mgr.onlineMember)
      ensures member != null <==> ok && pk in rows
      ensures member == null ==> mgr.inFlight == old(mgr.inFlight) && mgr.Census() == old(mgr.Census())
      ensures member != null ==>
                && member !in old(mgr.inFlight) && mgr.inFlight == old(mgr.inFlight) + {member}
                && member.pk == (if columns > 0 then pk else "") && member.tokId == (if columns > 1 then rows[pk].tokId else "")
                && member.bio == (if columns > 2 then rows[pk].bio else "")
                && member.signature == (if columns > 3 then rows[pk].signature else "")
                && member.nickName == (if columns > 4 then rows[pk].nickName else "")
                && mgr.Census() == Take(old(mgr.Census()))
      ensures old(mgr.pool.created) <= mgr.pool.created && fresh(mgr.pool.created - old(mgr.pool.created))
    {
      hide Manager.Valid;
      hide Manager.Cache;
      hide Manager.Census;
      hide Take;
      hide DBConn.Pool.AtRest;
      hide DBConn.Pool.Serves;
      var conn := Connect(closed);
      member := null;
      if ok && pk in rows {
        member := ReadRow(mgr, pk, columns);
      }
      Disconnect(conn);
    }
  }
}
