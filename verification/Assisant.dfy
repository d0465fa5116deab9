/**
 The callbacks, on the real objects: the map of pointers, the recycling pool and the table. Each is proved
 to do exactly what the directory and the accounting say, and `Serve` carries that over any run.
 */
module Callbacks {
  import opened Wrappers
  import opened Directory
  import opened Members
  import opened MemberMgr
  import opened MemberModel
  import opened Accounting
  import opened Consent
  import opened NonInterference
  import opened Dialogue
  import opened KeyOrder
  import CommandLine

  /** Commands that change nothing. */
  lemma QuietMessage(cap: nat, h: Heap, e: Event)
    requires e.Message?
    ensures !e.cmd.Start? && !e.cmd.Stop? && !e.cmd.Set? ==> Tick(cap, h, e) == h
  {
  }

  lemma TickSteps(cap: nat, h: Heap, e: Event)
    ensures Tick(cap, h, e).dir == Step(h.dir, e)
  {
  }

  class Assisant {
    var mgr: Manager
    var model: Model
    const cap: nat
    const maxConn: nat
    ghost var connected: set<string>     // the messenger's, not stored by the bot

    ghost predicate Valid()
      reads this, mgr, mgr.pool, mgr.pool.created, model, model.db
    {
      && mgr.Valid() && mgr.inFlight == {} && mgr.pool.maxPoolSize == cap
      && model.db.AtRest() && model.db.maxConn == maxConn
    }

    /** What the objects mean to the directory. */
    ghost function Dir(): State
      requires Valid()
      reads this, mgr, mgr.pool, mgr.pool.created, model, model.db
    {
      State(connected, mgr.Cache(), model.rows)
    }

    /** What they mean to the accounting. */
    ghost function Abs(): Heap
      requires Valid()
      reads this, mgr, mgr.pool, mgr.pool.created, model, model.db
    {
      Heap(Dir(), mgr.Census())
    }

    /** Same objects as before, and only new ones beside them. */
    twostate predicate Grown()
      reads this, mgr.pool
    {
      && mgr == old(mgr) && model == old(model)
      && old(mgr.pool.created) <= mgr.pool.created && fresh(mgr.pool.created - old(mgr.pool.created))
    }

    /** Whatever objects the process now holds, it held before or has made since. */
    twostate predicate Mine()
      reads this, mgr.pool
    {
      Grown() || fresh({mgr, mgr.pool, model, model.db} + mgr.pool.created)
    }

    constructor (rows: map<string, Row>, cap: nat, maxConn: nat)
      ensures Valid() && Abs() == FreshHeap(rows) && model.rows == rows
      ensures this.cap == cap && this.maxConn == maxConn
      ensures fresh({mgr, mgr.pool, model, model.db} + mgr.pool.created)
    {
      this.cap, this.maxConn := cap, maxConn;
      mgr := new Manager(cap);
      model := new Model(rows, maxConn);
      connected := {};
      new;
      hide Manager.Valid;
      hide Manager.Cache;
      hide Manager.Census;
      hide DBConn.Pool.AtRest;
    }

    method FriendOnline(pk: string)
      requires Valid()
      modifies this`connected, mgr, mgr.pool, mgr.pool.created, model.db
      ensures Valid() && Grown()
      ensures Abs() == Tick(cap, old(Abs()), Connected(pk))
    {
      hide Manager.Valid;
      hide Manager.Cache;
      hide Manager.Census;
      hide DBConn.Pool.AtRest;
      mgr.PooledAreCreated();
      connected := connected + {pk};
      var closed: bool := *;
      var member := model.FindFriend(mgr, pk, closed, true, COLUMNS);
      if member != null {
        mgr.AddMember(member);
      }
    }

    method FriendOffline(pk: string)
      requires Valid()
      modifies this`connected, mgr, mgr.pool
      ensures Valid() && Grown()
      ensures Abs() == Tick(cap, old(Abs()), Disconnected(pk))
    {
      hide Manager.Valid;
      hide Manager.Cache;
      hide Manager.Census;
      hide DBConn.Pool.AtRest;
      connected := connected - {pk};
      mgr.DelMember(pk);
    }

    /** The cache's part of /start. */
    method CacheNew(pk: string, tokId: string, name: string, bio: string)
      requires Valid()
      modifies mgr, mgr.pool, mgr.pool.created
      ensures Valid() && Grown()
      ensures mgr.Cache() == InsertNew(old(mgr.Cache()), pk, Row(tokId, name, bio, ""))
      ensures mgr.Census() == Insert(Take(old(mgr.Census())), pk in old(mgr.Cache()))
    {
      hide Manager.Valid;
      hide Manager.Cache;
      hide Manager.Census;
      hide DBConn.Pool.AtRest;
      hide InsertNew;
      hide Insert;
      hide Take;
      mgr.PooledAreCreated();
      var member := mgr.Allocate();
      label Taken:
      member.pk := pk;
      member.tokId := tokId;
      member.nickName := name;
      member.bio := bio;
      mgr.WriteInFlight@Taken(member);
      mgr.AddMember(member);
    }

    method CmdStart(pk: string, tokId: string, profile: Profile, ghost roll: nat) returns (reply: bool)
      requires Valid()
      modifies mgr, mgr.pool, mgr.pool.created, model, model.db
      ensures Valid() && Grown()
      ensures Abs() == Tick(cap, old(Abs()), Message(pk, Start(tokId), profile, roll))
      ensures tokId == "" || profile.name.None? || profile.bio.None? ==> Abs() == old(Abs())
      ensures reply <==> tokId == "" || (profile.name.Some? && profile.bio.Some?)
    {
      hide Manager.Valid;
      hide Manager.Cache;
      hide Manager.Census;
      hide DBConn.Pool.AtRest;
      if tokId == "" {
        return true;
      }
      if profile.name.None? || profile.bio.None? {
        return false;
      }
      var name, bio := CStr(profile.name.value), CStr(profile.bio.value);
      var closed: bool := *;
      model.AddFriend(tokId, pk, name, bio, closed, true);
      CacheNew(pk, tokId, name, bio);
      return true;
    }

    method CmdStop(pk: string, ghost profile: Profile, ghost roll: nat) returns (reply: bool)
      requires Valid()
      modifies mgr, mgr.pool, model, model.db
      ensures Valid() && Grown()
      ensures Abs() == Tick(cap, old(Abs()), Message(pk, Stop, profile, roll))
      ensures reply <==> pk in old(model.rows)
    {
      hide Manager.Valid;
      hide Manager.Cache;
      hide Manager.Census;
      hide DBConn.Pool.AtRest;
      mgr.DelMember(pk);
      var closed: bool := *;
      var deleted := model.DelFriend(pk, closed, true);
      return deleted != 0;
    }

    /** The cache's part of /set. */
    method CacheSignature(pk: string, signature: string)
      requires Valid()
      modifies mgr.pool.created
      ensures Valid()
      ensures mgr.Cache() == var c := old(mgr.Cache()); if pk in c then c[pk := c[pk].(signature := signature)] else c
    {
      hide Manager.Valid;
      hide Manager.Cache;
      hide Manager.Census;
      hide DBConn.Pool.AtRest;
      var member := mgr.FindMember(pk);
      if member != null {
        member.signature := signature;
        mgr.WriteThrough(pk);
      }
    }

    /** `counted` says whether the driver counts the row that is updated. */
    method CmdSet(pk: string, signature: string, counted: bool, ghost profile: Profile, ghost roll: nat) returns (reply: bool)
      requires Valid()
      modifies mgr.pool.created, model, model.db
      ensures Valid() && Grown()
      ensures Abs() == Tick(cap, old(Abs()), Message(pk, Set(signature), profile, roll))
      ensures reply <==> signature == "" || (pk in old(model.rows) && counted)
    {
      hide Manager.Valid;
      hide Manager.Cache;
      hide Manager.Census;
      hide DBConn.Pool.AtRest;
      if signature == "" {
        return true;
      }
      CacheSignature(pk, signature);
      var closed: bool := *;
      var updated := model.UpdateFriendSignature(pk, signature, closed, true, counted);
      return updated != 0;
    }

    method CmdGet(pk: string, roll: nat) returns (member: Member?)
      requires Valid()
      ensures match Recommended(Dir(), pk, roll)
              case None => member == null
              case Some(p) => member != null && member.pk == p && p in Dir().cache && member.Contents() == Dir().cache[p]
      ensures var others := KeysInOrder(Dir().cache.Keys - {pk});
              if others == [] then member == null else member != null && member.pk == others[roll % |others|]
    {
      member := mgr.RandomMember(pk, roll);
    }

    method FriendName(pk: string, name: string)
      requires Valid()
      modifies mgr.pool.created, model, model.db
      ensures Valid() && Grown()
      ensures Abs() == Tick(cap, old(Abs()), NameChanged(pk, name))
    {
      hide Manager.Valid;
      hide Manager.Cache;
      hide Manager.Census;
      hide DBConn.Pool.AtRest;
      var text := CStr(name);
      var closed: bool := *;
      model.UpdateFriendName(pk, text, closed, true);
      var member := mgr.FindMember(pk);
      if member != null {
        member.nickName := text;
        mgr.WriteThrough(pk);
      }
    }

    method FriendStatusMessage(pk: string, bio: string)
      requires Valid()
      modifies mgr.pool.created, model, model.db
      ensures Valid() && Grown()
      ensures Abs() == Tick(cap, old(Abs()), BioChanged(pk, bio))
    {
      hide Manager.Valid;
      hide Manager.Cache;
      hide Manager.Census;
      hide DBConn.Pool.AtRest;
      var text := CStr(bio);
      var closed: bool := *;
      model.UpdateFriendBio(pk, text, closed, true);
      var member := mgr.FindMember(pk);
      if member != null {
        member.bio := text;
        mgr.WriteThrough(pk);
      }
    }

    method FriendMessage(pk: string, text: string, profile: Profile, roll: nat) returns (shown: Option<Card>)
      requires Valid() && |text| < CommandLine.NPOS
      modifies mgr, mgr.pool, mgr.pool.created, model, model.db
      ensures Valid() && Grown()
      ensures Abs() == Tick(cap, old(Abs()), Message(pk, CommandLine.Interpret(text), profile, roll))
      ensures shown == Shown(old(Dir()), Message(pk, CommandLine.Interpret(text), profile, roll))
    {
      hide Manager.Valid;
      hide Manager.Cache;
      hide Manager.Census;
      hide DBConn.Pool.AtRest;
      hide Tick;
      hide Recommended;
      hide CommandLine.Interpret;
      shown := None;
      match CommandLine.Interpret(text) {
        case Start(tokId) => var _ := CmdStart(pk, tokId, profile, roll);
        case Stop => var _ := CmdStop(pk, profile, roll);
        case Set(signature) =>
          var counted: bool := *;
          var _ := CmdSet(pk, signature, counted, profile, roll);
        case Get =>
          var member := CmdGet(pk, roll);
          if member != null {
            shown := Some(Card(member.pk, Row(member.tokId, member.nickName, member.bio, member.signature)));
          }
        case _ =>
      }
      QuietMessage(cap, old(Abs()), Message(pk, CommandLine.Interpret(text), profile, roll));
    }

    /** The process dies, its memory goes with it, and it starts again on the same table. */
    method Reboot()
      requires Valid()
      modifies this
      ensures Valid() && fresh({mgr, mgr.pool, model, model.db} + mgr.pool.created)
      ensures Abs() == Tick(cap, old(Abs()), Restart)
    {
      hide Manager.Valid;
      hide Manager.Cache;
      hide Manager.Census;
      hide DBConn.Pool.AtRest;
      model := new Model(model.rows, maxConn);
      mgr := new Manager(cap);
      connected := {};
    }

    /** One input to its callback. */
    method Callback(i: Input) returns (shown: Option<Card>)
      requires Valid() && Sized(i)
      modifies this, mgr, mgr.pool, mgr.pool.created, model, model.db
      ensures Valid() && Mine()
      ensures Abs() == Tick(cap, old(Abs()), EventOf(i))
      ensures shown == Shown(old(Dir()), EventOf(i))
    {
      hide Manager.Valid;
      hide Manager.Cache;
      hide Manager.Census;
      hide DBConn.Pool.AtRest;
      hide Tick;
      hide Step;
      shown := None;
      match i {
        case Status(pk, online) => if online { FriendOnline(pk); } else { FriendOffline(pk); }
        case Text(pk, text, profile, roll) => shown := FriendMessage(pk, text, profile, roll);
        case Name(pk, name) => FriendName(pk, name);
        case StatusMessage(pk, bio) => FriendStatusMessage(pk, bio);
        case Crash => Reboot();
      }
    }

    /** What each input does to the directory, and what it is answered, in its own terms. */
    method Handle(i: Input) returns (shown: Option<Card>)
      requires Valid() && Sized(i)
      modifies this, mgr, mgr.pool, mgr.pool.created, model, model.db
      ensures Valid() && Mine()
      ensures Abs() == Tick(cap, old(Abs()), EventOf(i))
      ensures shown == Shown(old(Dir()), EventOf(i))
      ensures forall p :: !i.Crash? && i.pk != p ==>
                && (p in Dir().connected <==> p in old(Dir()).connected)
                && (p in Dir().rows <==> p in old(Dir()).rows) && (p in Dir().rows ==> Dir().rows[p] == old(Dir()).rows[p])
                && (p in Dir().cache <==> p in old(Dir()).cache) && (p in Dir().cache ==> Dir().cache[p] == old(Dir()).cache[p])
      ensures i.Status? && i.connected ==> i.pk in Dir().connected && (i.pk in Dir().rows ==> i.pk in Dir().cache)
      ensures i.Status? && !i.connected ==> i.pk !in Dir().connected && i.pk !in Dir().cache
      ensures i.Status? || i.Crash? ==> Dir().rows == old(Dir()).rows
      ensures i.Crash? ==> Dir().connected == {} && Dir().cache == map[]
      ensures i.Name? && i.pk in old(Dir()).rows ==>
                i.pk in Dir().rows && Dir().rows[i.pk] == old(Dir()).rows[i.pk].(nickName := CStr(i.name))
      ensures i.Name? && i.pk in old(Dir()).cache ==>
                i.pk in Dir().cache && Dir().cache[i.pk] == old(Dir()).cache[i.pk].(nickName := CStr(i.name))
      ensures i.StatusMessage? && i.pk in old(Dir()).rows ==>
                i.pk in Dir().rows && Dir().rows[i.pk] == old(Dir()).rows[i.pk].(bio := CStr(i.bio))
      ensures i.StatusMessage? && i.pk in old(Dir()).cache ==>
                i.pk in Dir().cache && Dir().cache[i.pk] == old(Dir()).cache[i.pk].(bio := CStr(i.bio))
      ensures i.Text? && CommandLine.AsksFor(i.text, "stop") ==> i.pk !in Dir().rows && i.pk !in Dir().cache
      ensures i.Text? && CommandLine.Asks(i.text, "start", "") ==> Dir() == old(Dir())
      ensures i.Text? && i.profile.name.Some? && i.profile.bio.Some?
                && (exists id :: id != "" && CommandLine.Asks(i.text, "start", id))
              ==> i.pk in Dir().rows && i.pk in Dir().cache
      ensures if i.Text? && CommandLine.AsksFor(i.text, "get") then
                var others := KeysInOrder(old(Dir()).cache.Keys - {i.pk});
                if others == [] then shown.None?
                else
                  var p := others[i.roll % |others|];
                  p in old(Dir()).cache && shown == Some(Card(p, old(Dir()).cache[p]))
              else shown.None?
    {
      hide Valid;
      hide Dir;
      hide Tick;
      hide Step;
      hide Shown;
      hide CommandLine.Asks;
      hide CommandLine.AsksFor;
      ghost var s, h := Dir(), Abs();
      shown := Callback(i);
      TickSteps(cap, h, EventOf(i));
      InputMeans(s, Dir(), i);
      forall p | !i.Crash? && i.pk != p
        ensures p in Dir().connected <==> p in s.connected
        ensures (p in Dir().rows <==> p in s.rows) && (p in Dir().rows ==> Dir().rows[p] == s.rows[p])
        ensures (p in Dir().cache <==> p in s.cache) && (p in Dir().cache ==> Dir().cache[p] == s.cache[p])
      {
        OthersInput(s, Dir(), i, p);
      }
      ShownTo(s, i);
    }

    /** One more input of a run. */
    method Next(i: Input, ghost rows: map<string, Row>, ghost es: seq<Event>) returns (shown: Option<Card>)
      requires Valid() && Sized(i) && Abs() == RunHeap(cap, FreshHeap(rows), es)
      modifies this, mgr, mgr.pool, mgr.pool.created, model, model.db
      ensures Valid() && Mine()
      ensures Abs() == RunHeap(cap, FreshHeap(rows), es + [EventOf(i)])
      ensures Answers(rows, es + [EventOf(i)]) == Answers(rows, es) + [shown]
    {
      hide Valid;
      hide Dir;
      hide Tick;
      hide Step;
      hide Shown;
      hide CommandLine.Asks;
      hide CommandLine.AsksFor;
      HeapRunsTheDirectory(cap, FreshHeap(rows), es);
      assert (es + [EventOf(i)])[..|es|] == es;
      shown := Handle(i);
    }

    /**
     The main loop, over any run of inputs from a fresh start on any table: the map of pointers, the pool and
     the table end up meaning what the directory and the accounting say, and every /get was answered so.
     */
    method Loop(inputs: seq<Input>) returns (shown: seq<Option<Card>>)
      requires Valid() && Abs() == FreshHeap(model.rows)
      requires AllSized(inputs)
      modifies this, mgr, mgr.pool, mgr.pool.created, model, model.db
      ensures Valid()
      ensures Abs() == RunHeap(cap, FreshHeap(old(model.rows)), EventsOf(inputs))
      ensures shown == Answers(old(model.rows), EventsOf(inputs))
    {
      hide Valid;
      hide Abs;
      hide Tick;
      hide Shown;
      hide EventOf;
      ghost var es := EventsOf(inputs);
      ghost var rows := model.rows;
      shown := [];
      for n := 0 to |inputs|
        invariant Valid() && Mine()
        invariant Abs() == RunHeap(cap, FreshHeap(rows), es[..n])
        invariant shown == Answers(rows, es[..n])
      {
        assert es[..n + 1] == es[..n] + [EventOf(inputs[n])];
        var s := Next(inputs[n], rows, es[..n]);
        shown := shown + [s];
      }
      assert es[..|inputs|] == es;
    }

    /**
     The same, told from the inputs alone: who is connected, registered and cached at the end, and who was shown on
     the way.
     */
    method Serve(inputs: seq<Input>) returns (shown: seq<Option<Card>>)
      requires Valid() && Abs() == FreshHeap(model.rows)
      requires AllSized(inputs)
      modifies this, mgr, mgr.pool, mgr.pool.created, model, model.db
      ensures Valid()
      ensures Abs() == RunHeap(cap, FreshHeap(old(model.rows)), EventsOf(inputs))
      ensures shown == Answers(old(model.rows), EventsOf(inputs))
      ensures forall p :: p in Dir().connected <==> Up(inputs, p)
      ensures forall p :: p in Dir().rows <==> Agreed(old(model.rows), inputs, p)
      ensures StartsUp(inputs) ==> forall p :: p in Dir().cache <==> Up(inputs, p) && Agreed(old(model.rows), inputs, p)
      ensures forall i :: 0 <= i < |shown| && shown[i].Some? ==>
                && inputs[i].Text? && CommandLine.AsksFor(inputs[i].text, "get") && shown[i].value.pk != inputs[i].pk
                && Agreed(old(model.rows), inputs[..i], shown[i].value.pk)
      ensures forall i :: 0 <= i < |shown| && StartsUp(inputs[..i])
                          && inputs[i].Text? && CommandLine.AsksFor(inputs[i].text, "get") ==>
                (shown[i].None? <==> forall p :: p != inputs[i].pk ==>
                   !(Up(inputs[..i], p) && Agreed(old(model.rows), inputs[..i], p)))
    {
      hide Valid;
      hide Dir;
      hide RunHeap;
      hide Answers;
      hide Up;
      hide Agreed;
      hide StartsUp;
      hide CommandLine.AsksFor;
      ghost var rows := model.rows;
      shown := Loop(inputs);
      HeapRunsTheDirectory(cap, FreshHeap(rows), EventsOf(inputs));
      forall p
        ensures p in Dir().connected <==> Up(inputs, p)
        ensures p in Dir().rows <==> Agreed(rows, inputs, p)
        ensures StartsUp(inputs) ==> (p in Dir().cache <==> Up(inputs, p) && Agreed(rows, inputs, p))
      {
        InputsDecide(rows, inputs, p);
      }
      AllAnswers(rows, inputs);
    }
  }

  /** A process from its start to the end of its inputs. */
  method Process(rows: map<string, Row>, cap: nat, maxConn: nat, inputs: seq<Input>) returns (a: Assisant)
    requires AllSized(inputs)
    ensures a.Valid() && a.cap == cap && a.maxConn == maxConn
    ensures a.Abs() == RunHeap(cap, FreshHeap(rows), EventsOf(inputs))
  {
    hide Assisant.Valid;
    hide Assisant.Abs;
    hide RunHeap;
    a := new Assisant(rows, cap, maxConn);
    var _ := a.Serve(inputs);
  }

  lemma SameViewOfBoth(rows: map<string, Row>, capA: nat, capB: nat, es: seq<Event>, fs: seq<Event>, p: string)
    requires OwnEvents(es, p) == OwnEvents(fs, p)
    ensures ViewOf(RunHeap(capA, FreshHeap(rows), es).dir, p) == ViewOf(RunHeap(capB, FreshHeap(rows), fs).dir, p)
  {
    HeapRunsTheDirectory(capA, FreshHeap(rows), es);
    HeapRunsTheDirectory(capB, FreshHeap(rows), fs);
    SameOwnEventsSameView(Boot(rows), Boot(rows), es, fs, p);
  }

  /**
   Recycling is invisible: two processes on the same table, with whatever caps and connection limits, and whatever all
   the other users do, leave a user who does the same in both with the same connection, row and cached record.
   */
  method RecyclingIsInvisible(rows: map<string, Row>, capA: nat, capB: nat, maxConnA: nat, maxConnB: nat,
                              inputsA: seq<Input>, inputsB: seq<Input>, p: string) returns (a: Assisant, b: Assisant)
    requires AllSized(inputsA)
    requires AllSized(inputsB)
    requires OwnEvents(EventsOf(inputsA), p) == OwnEvents(EventsOf(inputsB), p)
    ensures a.Valid() && a.cap == capA && a.maxConn == maxConnA
    ensures b.Valid() && b.cap == capB && b.maxConn == maxConnB
    ensures ViewOf(a.Dir(), p) == ViewOf(b.Dir(), p)
  {
    hide Assisant.Valid;
    hide Assisant.Dir;
    hide RunHeap;
    hide ViewOf;
    a := Process(rows, capA, maxConnA, inputsA);
    b := Process(rows, capB, maxConnB, inputsB);
    SameViewOfBoth(rows, capA, capB, EventsOf(inputsA), EventsOf(inputsB), p);
  }
}
