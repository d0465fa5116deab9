/**
 The member directory: what one callback does to the in-memory cache of online members and to the
 table of registered members.

 `connected` is the messenger's own knowledge of who is online; the bot never stores it.
 A row or a cached record is reached through the public key it belongs to.
 */
module Directory {
  import opened Wrappers
  import opened Recommend

  datatype Row = Row(tokId: string, nickName: string, bio: string, signature: string)

  datatype State = State(connected: set<string>, cache: map<string, Row>, rows: map<string, Row>)

  datatype Command = Start(tokId: string) | Stop | Set(signature: string) | Get | Info | Help | Readme | Unknown

  /** What the messenger answers when asked for a friend's name and status message. */
  datatype Profile = Profile(name: Option<string>, bio: Option<string>)

  datatype Event =
    | Connected(pk: string)             // any connection status but NONE, possibly repeated
    | Disconnected(pk: string)
    | Message(pk: string, cmd: Command, profile: Profile, roll: nat)
    | NameChanged(pk: string, name: string)
    | BioChanged(pk: string, bio: string)
    | Restart                           // the process dies and comes up again on the same table

  predicate NulFree(s: string) {
    forall i :: 0 <= i < |s| ==> s[i] != '\0'
  }

  /** A string as seen through `c_str()`: it ends at the first NUL. */
  function CStr(s: string): (r: string)
    ensures NulFree(r)
    ensures r <= s
    ensures r == s <==> NulFree(s)
    ensures |r| < |s| ==> s[|r|] == '\0'
  {
    if s == [] || s[0] == '\0' then []
    else
      assert s == [s[0]] + s[1..];
      [s[0]] + CStr(s[1..])
  }

  /** `std::map::insert`: an existing entry wins. */
  function InsertNew(m: map<string, Row>, pk: string, row: Row): map<string, Row> {
    if pk in m then m else m[pk := row]
  }

  predicate RegistersAs(cmd: Command, profile: Profile) {
    cmd.Start? && cmd.tokId != "" && profile.name.Some? && profile.bio.Some?
  }

  /** A /start that is carried out, by `p`. */
  predicate Registers(e: Event, p: string) {
    e.Message? && e.pk == p && RegistersAs(e.cmd, e.profile)
  }

  predicate Withdraws(e: Event, p: string) {
    e.Message? && e.pk == p && e.cmd.Stop?
  }

  /** The row REPLACE writes: every bound string ends at its first NUL, the signature takes its default. */
  function NewRow(tokId: string, name: string, bio: string): Row {
    Row(CStr(tokId), CStr(name), CStr(bio), "")
  }

  /** The record put in the cache, which keeps the command parameter whole. */
  function NewRecord(tokId: string, name: string, bio: string): Row {
    Row(tokId, CStr(name), CStr(bio), "")
  }

  function Obey(s: State, p: string, cmd: Command, profile: Profile): State {
    match cmd
    case Start(tokId) =>
      if RegistersAs(cmd, profile) then
        var (name, bio) := (profile.name.value, profile.bio.value);
        s.(rows := s.rows[p := NewRow(tokId, name, bio)],
           cache := InsertNew(s.cache, p, NewRecord(tokId, name, bio)))
      else s
    case Stop => s.(cache := s.cache - {p}, rows := s.rows - {p})
    case Set(sig) =>
      if sig == "" then s
      else s.(cache := if p in s.cache then s.cache[p := s.cache[p].(signature := sig)] else s.cache,
              rows := if p in s.rows then s.rows[p := s.rows[p].(signature := CStr(sig))] else s.rows)
    case _ => s
  }

  function Step(s: State, e: Event): State {
    match e
    case Connected(p) =>
      s.(connected := s.connected + {p},
         cache := if p in s.rows then InsertNew(s.cache, p, s.rows[p]) else s.cache)
    case Disconnected(p) => s.(connected := s.connected - {p}, cache := s.cache - {p})
    case Message(p, cmd, profile, _) => Obey(s, p, cmd, profile)
    case NameChanged(p, name) =>
      s.(cache := if p in s.cache then s.cache[p := s.cache[p].(nickName := CStr(name))] else s.cache,
         rows := if p in s.rows then s.rows[p := s.rows[p].(nickName := CStr(name))] else s.rows)
    case BioChanged(p, bio) =>
      s.(cache := if p in s.cache then s.cache[p := s.cache[p].(bio := CStr(bio))] else s.cache,
         rows := if p in s.rows then s.rows[p := s.rows[p].(bio := CStr(bio))] else s.rows)
    case Restart => Boot(s.rows)
  }

  /** A fresh process: nobody is connected, nothing is cached. */
  function Boot(rows: map<string, Row>): State {
    State({}, map[], rows)
  }

  function Run(s: State, es: seq<Event>): State {
    if es == [] then s else Step(Run(s, es[..|es| - 1]), es[|es| - 1])
  }

  /** The member /get shows, by key. */
  function Recommended(s: State, requester: string, roll: nat): (r: Option<string>)
    ensures r.Some? ==> r.value in s.cache && r.value != requester
  {
    ChooseFindsSomeoneElse(s.cache.Keys, requester, roll);
    Choose(s.cache.Keys, requester, roll)
  }

  /** A /start without a Tok ID, or by a user whose name or status message is unknown, changes nothing. */
  lemma StartIsRefused(s: State, p: string, tokId: string, profile: Profile, roll: nat)
    requires tokId == "" || profile.name.None? || profile.bio.None?
    ensures Step(s, Message(p, Start(tokId), profile, roll)) == s
  {
  }

  /** Any other /start writes the row, and a record into the cache unless there is one. */
  lemma StartRegisters(s: State, p: string, tokId: string, name: string, bio: string, roll: nat)
    requires tokId != ""
    ensures var t := Step(s, Message(p, Start(tokId), Profile(Some(name), Some(bio)), roll));
            && t.connected == s.connected
            && t.rows == s.rows[p := Row(CStr(tokId), CStr(name), CStr(bio), "")]
            && t.cache == if p in s.cache then s.cache else s.cache[p := Row(tokId, CStr(name), CStr(bio), "")]
  {
    hide CStr;
    hide NulFree;
  }

  lemma RunSplit(s: State, a: seq<Event>, b: seq<Event>)
    ensures Run(s, a + b) == Run(Run(s, a), b)
  {
    if b == [] {
      assert a + b == a;
    } else {
      var ab := a + b;
      assert ab[..|ab| - 1] == a + b[..|b| - 1];
      RunSplit(s, a, b[..|b| - 1]);
    }
  }

  /** One more event of a run, seen as a prefix. */
  lemma RunNext(s: State, es: seq<Event>, i: nat)
    requires i < |es|
    ensures Run(s, es[..i + 1]) == Step(Run(s, es[..i]), es[i])
  {
    assert es[..i + 1][..i] == es[..i];
  }
}
