/**
 What reaches the process and what it answers. Inputs are told apart as the messenger's callbacks are, and the text of a
 message by what stands in it.
 */
module Dialogue {
  import opened Wrappers
  import opened KeyOrder
  import opened Recommend
  import opened Directory
  import opened Consent
  import Agreement
  import CommandLine

  /** What reaches the process from outside. */
  datatype Input =
    | Status(pk: string, connected: bool)
    | Text(pk: string, text: string, profile: Profile, roll: nat)
    | Name(pk: string, name: string)
    | StatusMessage(pk: string, bio: string)
    | Crash

  predicate Sized(i: Input) {
    i.Text? ==> |i.text| < CommandLine.NPOS
  }

  function EventOf(i: Input): Event
    requires Sized(i)
  {
    match i
    case Status(pk, connected) => if connected then Connected(pk) else Disconnected(pk)
    case Text(pk, text, profile, roll) => Message(pk, CommandLine.Interpret(text), profile, roll)
    case Name(pk, name) => NameChanged(pk, name)
    case StatusMessage(pk, bio) => BioChanged(pk, bio)
    case Crash => Restart
  }

  predicate AllSized(inputs: seq<Input>) {
    forall i :: 0 <= i < |inputs| ==> Sized(inputs[i])
  }

  function EventsOf(inputs: seq<Input>): (es: seq<Event>)
    requires AllSized(inputs)
    ensures |es| == |inputs|
  {
    seq(|inputs|, i requires 0 <= i < |inputs| => EventOf(inputs[i]))
  }

  // ---- what one input does ----

  lemma ConnectionMeans(s: State, pk: string)
    ensures Step(s, EventOf(Status(pk, true)))
         == State(s.connected + {pk}, if pk in s.rows && pk !in s.cache then s.cache[pk := s.rows[pk]] else s.cache, s.rows)
    ensures Step(s, EventOf(Status(pk, false))) == State(s.connected - {pk}, s.cache - {pk}, s.rows)
    ensures Step(s, EventOf(Crash)) == State({}, map[], s.rows)
  {
  }

  lemma ProfileMeans(s: State, pk: string, x: string)
    ensures var t := Step(s, EventOf(Name(pk, x)));
            && t.connected == s.connected
            && t.rows == (if pk in s.rows then s.rows[pk := s.rows[pk].(nickName := CStr(x))] else s.rows)
            && t.cache == (if pk in s.cache then s.cache[pk := s.cache[pk].(nickName := CStr(x))] else s.cache)
    ensures var t := Step(s, EventOf(StatusMessage(pk, x)));
            && t.connected == s.connected
            && t.rows == (if pk in s.rows then s.rows[pk := s.rows[pk].(bio := CStr(x))] else s.rows)
            && t.cache == (if pk in s.cache then s.cache[pk := s.cache[pk].(bio := CStr(x))] else s.cache)
  {
  }

  /** A text with /start: refused without an ID or a profile, and otherwise the user is registered as it says. */
  lemma StartMeans(s: State, pk: string, text: string, profile: Profile, roll: nat, id: string)
    requires |text| < CommandLine.NPOS && CommandLine.Asks(text, "start", id)
    ensures var t := Step(s, EventOf(Text(pk, text, profile, roll)));
            if id == "" || profile.name.None? || profile.bio.None? then t == s
            else
              var (name, bio) := (CStr(profile.name.value), CStr(profile.bio.value));
              && t.connected == s.connected
              && t.rows == s.rows[pk := Row(CStr(CommandLine.Upper(id)), name, bio, "")]
              && t.cache == if pk in s.cache then s.cache else s.cache[pk := Row(CommandLine.Upper(id), name, bio, "")]
  {
    CommandLine.ParameterIs(text, id);
    hide CommandLine.Interpret;
    if id != "" && profile.name.Some? && profile.bio.Some? {
      StartRegisters(s, pk, CommandLine.Upper(id), profile.name.value, profile.bio.value, roll);
    } else {
      StartIsRefused(s, pk, CommandLine.Upper(id), profile, roll);
    }
  }

  /** Nothing comes after the word: the /start is refused, whatever the profile. */
  lemma BareStartMeans(s: State, pk: string, text: string, profile: Profile, roll: nat, prefix: string, word: string)
    requires |text| < CommandLine.NPOS && text == prefix + "/" + word && CommandLine.Lower(word) == "start"
    requires forall i :: 0 <= i < |prefix| ==> prefix[i] != '/' && prefix[i] != ' '
    ensures Step(s, EventOf(Text(pk, text, profile, roll))) == s
  {
    BlankFree(word);
    assert CommandLine.SlashFirst(text, prefix, word, "");
    assert CommandLine.Asks(text, "start", "");
    StartMeans(s, pk, text, profile, roll, "");
  }

  lemma BlankFree(word: string)
    requires CommandLine.Lower(word) == "start"
    ensures CommandLine.Absent(word, ' ')
  {
    forall i | 0 <= i < |word| ensures word[i] != ' ' {
      CommandLine.CaseOfText(word, i);
    }
  }

  lemma SetMeans(s: State, pk: string, text: string, profile: Profile, roll: nat, sig: string)
    requires |text| < CommandLine.NPOS && CommandLine.Asks(text, "set", sig)
    ensures var t := Step(s, EventOf(Text(pk, text, profile, roll)));
            if sig == "" then t == s
            else
              && t.connected == s.connected
              && t.rows == (if pk in s.rows then s.rows[pk := s.rows[pk].(signature := CStr(sig))] else s.rows)
              && t.cache == (if pk in s.cache then s.cache[pk := s.cache[pk].(signature := sig)] else s.cache)
  {
    CommandLine.ParameterIs(text, sig);
    hide CommandLine.Interpret;
  }

  lemma OtherTextMeans(s: State, pk: string, text: string, profile: Profile, roll: nat)
    requires |text| < CommandLine.NPOS
    ensures var t := Step(s, EventOf(Text(pk, text, profile, roll)));
            && (CommandLine.AsksFor(text, "stop") ==> t == State(s.connected, s.cache - {pk}, s.rows - {pk}))
            && (!CommandLine.AsksFor(text, "start") && !CommandLine.AsksFor(text, "stop") && !CommandLine.AsksFor(text, "set")
                ==> t == s)
  {
    CommandLine.InterpretIff(text);
    hide CommandLine.Interpret;
  }

  /** Whatever somebody else sends, `p` stays connected or not, registered or not and cached or not, with the same data. */
  lemma OthersInput(s: State, t: State, i: Input, p: string)
    requires Sized(i) && t == Step(s, EventOf(i))
    requires !i.Crash? && i.pk != p
    ensures p in t.connected <==> p in s.connected
    ensures p in t.rows <==> p in s.rows
    ensures p in s.rows ==> t.rows[p] == s.rows[p]
    ensures p in t.cache <==> p in s.cache
    ensures p in s.cache ==> t.cache[p] == s.cache[p]
  {
    hide CommandLine.Interpret;
  }

  /** In short, for whatever input it is. */
  lemma InputMeans(s: State, t: State, i: Input)
    requires Sized(i) && t == Step(s, EventOf(i))
    ensures i.Status? && i.connected ==> i.pk in t.connected && (i.pk in t.rows ==> i.pk in t.cache)
    ensures i.Status? && !i.connected ==> i.pk !in t.connected && i.pk !in t.cache
    ensures i.Status? || i.Crash? ==> t.rows == s.rows
    ensures i.Crash? ==> t.connected == {} && t.cache == map[]
    ensures i.Name? && i.pk in s.rows ==> i.pk in t.rows && t.rows[i.pk] == s.rows[i.pk].(nickName := CStr(i.name))
    ensures i.Name? && i.pk in s.cache ==> i.pk in t.cache && t.cache[i.pk] == s.cache[i.pk].(nickName := CStr(i.name))
    ensures i.StatusMessage? && i.pk in s.rows ==> i.pk in t.rows && t.rows[i.pk] == s.rows[i.pk].(bio := CStr(i.bio))
    ensures i.StatusMessage? && i.pk in s.cache ==> i.pk in t.cache && t.cache[i.pk] == s.cache[i.pk].(bio := CStr(i.bio))
    ensures i.Text? && CommandLine.AsksFor(i.text, "stop") ==> i.pk !in t.rows && i.pk !in t.cache
    ensures i.Text? && CommandLine.Asks(i.text, "start", "") ==> t == s
    ensures i.Text? && i.profile.name.Some? && i.profile.bio.Some?
              && (exists id :: id != "" && CommandLine.Asks(i.text, "start", id))
            ==> i.pk in t.rows && i.pk in t.cache
  {
    match i
    case Status(pk, _) => ConnectionMeans(s, pk);
    case Crash => ConnectionMeans(s, "");
    case Name(pk, x) => ProfileMeans(s, pk, x);
    case StatusMessage(pk, x) => ProfileMeans(s, pk, x);
    case Text(pk, text, profile, roll) =>
      OtherTextMeans(s, pk, text, profile, roll);
      hide *;
      if CommandLine.Asks(text, "start", "") {
        StartMeans(s, pk, text, profile, roll, "");
      }
      if id :| id != "" && CommandLine.Asks(text, "start", id) {
        StartMeans(s, pk, text, profile, roll, id);
      }
  }

  // ---- what a run of inputs leaves ----

  /** `p` has been reported connected, and since then neither reported disconnected nor lost in a crash. */
  ghost predicate Up(inputs: seq<Input>, p: string) {
    exists j :: 0 <= j < |inputs| && inputs[j] == Status(p, true) && NoLossFrom(inputs, j + 1, p)
  }

  ghost predicate NoLossFrom(inputs: seq<Input>, from: nat, p: string) {
    forall k :: from <= k < |inputs| ==> inputs[k] != Status(p, false) && inputs[k] != Crash
  }

  /** `p` sends /start with something after it, and its profile can be read. */
  ghost predicate SaysStart(i: Input, p: string) {
    && i.Text? && i.pk == p && i.profile.name.Some? && i.profile.bio.Some?
    && exists id :: id != "" && CommandLine.Asks(i.text, "start", id)
  }

  ghost predicate SaysStop(i: Input, p: string) {
    i.Text? && i.pk == p && CommandLine.AsksFor(i.text, "stop")
  }

  ghost predicate NoStopFrom(inputs: seq<Input>, from: nat, p: string) {
    forall k :: from <= k < |inputs| ==> !SaysStop(inputs[k], p)
  }

  /** `p` said /start and no /stop after it, or was in the table at first and never said /stop. */
  ghost predicate Agreed(rows: map<string, Row>, inputs: seq<Input>, p: string) {
    || (exists j :: 0 <= j < |inputs| && SaysStart(inputs[j], p) && NoStopFrom(inputs, j + 1, p))
    || (p in rows && NoStopFrom(inputs, 0, p))
  }

  /** Every /start comes from a friend who is connected. */
  ghost predicate StartsUp(inputs: seq<Input>) {
    forall j, p :: 0 <= j < |inputs| && SaysStart(inputs[j], p) ==> Up(inputs[..j], p)
  }

  lemma SaysStartIff(i: Input, p: string)
    requires Sized(i)
    ensures SaysStart(i, p) <==> Registers(EventOf(i), p)
  {
    if i.Text? {
      CommandLine.InterpretIff(i.text);
      hide CommandLine.Interpret;
      if id :| CommandLine.Asks(i.text, "start", id) {
        CommandLine.ParameterIs(i.text, id);
        forall other | CommandLine.Asks(i.text, "start", other) ensures other == id {
          CommandLine.OneParameter(i.text, "start", other, id);
        }
      }
    }
  }

  lemma SaysStopIff(i: Input, p: string)
    requires Sized(i)
    ensures SaysStop(i, p) <==> Withdraws(EventOf(i), p)
  {
    if i.Text? {
      CommandLine.InterpretIff(i.text);
    }
  }

  lemma UpIff(inputs: seq<Input>, p: string)
    requires AllSized(inputs)
    ensures Up(inputs, p) <==> Online(EventsOf(inputs), p)
  {
    var es := EventsOf(inputs);
    forall j | 0 <= j <= |inputs| ensures NoLossFrom(inputs, j, p) <==> StaysUp(es, j, p) {
      assert forall k :: j <= k < |inputs| ==> es[k] == EventOf(inputs[k]);
    }
    if j :| 0 <= j < |inputs| && inputs[j] == Status(p, true) && NoLossFrom(inputs, j + 1, p) {
      assert es[j] == Connected(p);
    }
    if j :| 0 <= j < |inputs| && es[j] == Connected(p) && StaysUp(es, j + 1, p) {
      assert inputs[j] == Status(p, true);
    }
  }

  lemma AgreedIff(rows: map<string, Row>, inputs: seq<Input>, p: string)
    requires AllSized(inputs)
    ensures Agreed(rows, inputs, p) <==> Consented(rows, EventsOf(inputs), p)
  {
    var es := EventsOf(inputs);
    forall k | 0 <= k < |inputs|
      ensures SaysStart(inputs[k], p) <==> Registers(es[k], p)
      ensures SaysStop(inputs[k], p) <==> Withdraws(es[k], p)
    {
      SaysStartIff(inputs[k], p);
      SaysStopIff(inputs[k], p);
    }
    hide SaysStart;
    hide SaysStop;
    hide Registers;
    hide Withdraws;
    hide EventOf;
    forall j | 0 <= j <= |inputs| ensures NoStopFrom(inputs, j, p) <==> NoStopSince(es, j, p) {
    }
  }

  lemma StartsUpIff(inputs: seq<Input>)
    requires AllSized(inputs)
    ensures StartsUp(inputs) <==> StartsOnline(EventsOf(inputs))
  {
    var es := EventsOf(inputs);
    forall j, p | 0 <= j < |inputs|
      ensures SaysStart(inputs[j], p) <==> Registers(es[j], p)
      ensures Up(inputs[..j], p) <==> Online(es[..j], p)
    {
      SaysStartIff(inputs[j], p);
      UpIff(inputs[..j], p);
      assert EventsOf(inputs[..j]) == es[..j];
    }
    hide SaysStart;
    hide Up;
    hide Online;
    hide Registers;
  }

  /** Who is connected, registered and cached after a run, told from the inputs. */
  lemma InputsDecide(rows: map<string, Row>, inputs: seq<Input>, p: string)
    requires AllSized(inputs)
    ensures var s := Run(Boot(rows), EventsOf(inputs));
            && (p in s.connected <==> Up(inputs, p))
            && (p in s.rows <==> Agreed(rows, inputs, p))
            && (StartsUp(inputs) ==> (p in s.cache <==> Up(inputs, p) && Agreed(rows, inputs, p)))
  {
    UpIff(inputs, p);
    AgreedIff(rows, inputs, p);
    StartsUpIff(inputs);
    ConnectedIsOnline(rows, EventsOf(inputs), p);
    TableIsConsent(rows, EventsOf(inputs), p);
    if StartsUp(inputs) {
      CachedIff(rows, EventsOf(inputs), p);
    }
  }

  // ---- what is answered ----

  /** A recommended member, and the record of it that is shown. */
  datatype Card = Card(pk: string, record: Row)

  /** What a message is answered with, if it is a /get that finds somebody. */
  function Shown(s: State, e: Event): Option<Card> {
    if e.Message? && e.cmd.Get? then
      match Recommended(s, e.pk, e.roll)
      case None => None
      case Some(p) => Some(Card(p, s.cache[p]))
    else None
  }

  /** The answer to one event: nothing unless it is a /get, and then the record at position roll % n of the n others. */
  lemma ShownIs(s: State, e: Event)
    ensures !(e.Message? && e.cmd.Get?) ==> Shown(s, e).None?
    ensures e.Message? && e.cmd.Get? ==>
              var others := KeysInOrder(s.cache.Keys - {e.pk});
              if others == [] then Shown(s, e).None? && s.cache.Keys <= {e.pk}
              else
                var p := others[e.roll % |others|];
                p in s.cache && p != e.pk && Shown(s, e) == Some(Card(p, s.cache[p]))
  {
    if e.Message? && e.cmd.Get? {
      ChooseFindsSomeoneElse(s.cache.Keys, e.pk, e.roll);
      var others := KeysInOrder(s.cache.Keys - {e.pk});
      if others != [] {
        assert others[e.roll % |others|] in others;
      }
    }
  }

  /** The same of an input. */
  lemma ShownTo(s: State, i: Input)
    requires Sized(i)
    ensures if i.Text? && CommandLine.AsksFor(i.text, "get") then
              var others := KeysInOrder(s.cache.Keys - {i.pk});
              if others == [] then Shown(s, EventOf(i)).None?
              else
                var p := others[i.roll % |others|];
                p in s.cache && Shown(s, EventOf(i)) == Some(Card(p, s.cache[p]))
            else Shown(s, EventOf(i)).None?
  {
    SaysGetIff(i);
    ShownIs(s, EventOf(i));
    hide Shown;
    hide CommandLine.Interpret;
    hide CommandLine.AsksFor;
  }

  /** Of the rolls below `bound`, /get shows the member at position `i` for bound / n, and one more if i < bound % n. */
  lemma GetIsNearUniform(s: State, pk: string, profile: Profile, i: nat, bound: nat)
    requires i < |s.cache.Keys - {pk}|
    ensures var n := |s.cache.Keys - {pk}|;
            var p := KeysInOrder(s.cache.Keys - {pk})[i];
            && p in s.cache
            && |set roll: nat | roll < bound && Shown(s, Message(pk, Get, profile, roll)) == Some(Card(p, s.cache[p]))|
               == bound / n + (if i < bound % n then 1 else 0)
  {
    var keys := s.cache.Keys;
    var p := KeysInOrder(keys - {pk})[i];
    assert p in keys - {pk};
    NearUniform(keys, pk, i, bound);
    forall roll: nat
      ensures Shown(s, Message(pk, Get, profile, roll)) == Some(Card(p, s.cache[p])) <==> Choose(keys, pk, roll) == Some(p)
    {
      ShownIs(s, Message(pk, Get, profile, roll));
    }
    hide Shown;
    hide Choose;
    assert (set roll: nat | roll < bound && Shown(s, Message(pk, Get, profile, roll)) == Some(Card(p, s.cache[p])))
        == RollsFor(keys, pk, p, bound);
  }

  /** The answers to a run of events, from a fresh start. */
  function Answers(rows: map<string, Row>, es: seq<Event>): (r: seq<Option<Card>>)
    ensures |r| == |es|
  {
    if es == [] then []
    else Answers(rows, es[..|es| - 1]) + [Shown(Run(Boot(rows), es[..|es| - 1]), es[|es| - 1])]
  }

  lemma {:induction false} AnswerAt(rows: map<string, Row>, es: seq<Event>, i: nat)
    requires i < |es|
    ensures Answers(rows, es)[i] == Shown(Run(Boot(rows), es[..i]), es[i])
  {
    hide Shown;
    hide Run;
    if i < |es| - 1 {
      AnswerAt(rows, es[..|es| - 1], i);
      assert es[..|es| - 1][..i] == es[..i];
    }
  }

  /** The answers of a whole run: only to /get, nobody exactly when there is nobody else, and otherwise by the roll. */
  lemma AnswersAre(rows: map<string, Row>, es: seq<Event>, i: nat)
    requires i < |es|
    ensures var (e, cache, a) := (es[i], Run(Boot(rows), es[..i]).cache, Answers(rows, es)[i]);
            if !(e.Message? && e.cmd.Get?) then a.None?
            else
              var others := KeysInOrder(cache.Keys - {e.pk});
              && (a.None? <==> cache.Keys <= {e.pk})
              && (a.Some? ==> others != [] && a.value.pk == others[e.roll % |others|]
                              && a.value.pk in cache && a.value.record == cache[a.value.pk])
    ensures es[i].Message? && es[i].cmd.Get? && StartsOnline(es[..i]) ==>
              (Answers(rows, es)[i].None?
               <==> forall p :: p != es[i].pk ==> !(Online(es[..i], p) && Consented(rows, es[..i], p)))
  {
    AnswerAt(rows, es, i);
    ShownIs(Run(Boot(rows), es[..i]), es[i]);
    if StartsOnline(es[..i]) {
      GetFindsNobodyIff(rows, es[..i], if es[i].Message? then es[i].pk else "", if es[i].Message? then es[i].roll else 0);
    }
  }

  /** In the answers of a whole run, nobody is shown to himself or without having consented by then. */
  lemma AnswersAreConsensual(rows: map<string, Row>, es: seq<Event>, i: nat)
    requires i < |es| && Answers(rows, es)[i].Some?
    ensures es[i].Message? && es[i].cmd.Get? && Answers(rows, es)[i].value.pk != es[i].pk
    ensures Consented(rows, es[..i], Answers(rows, es)[i].value.pk)
    ensures StartsOnline(es[..i]) ==> Online(es[..i], Answers(rows, es)[i].value.pk)
  {
    AnswerAt(rows, es, i);
    OnlyConsentingMembersAreShown(rows, es[..i], es[i].pk, es[i].roll);
    if StartsOnline(es[..i]) {
      CachedIff(rows, es[..i], Answers(rows, es)[i].value.pk);
    }
  }

  /** What is shown of a member is its row at that moment, if it never repeated /start while cached and sent no NUL. */
  lemma AnswersAreCurrent(rows: map<string, Row>, es: seq<Event>, i: nat)
    requires i < |es| && Answers(rows, es)[i].Some?
    requires forall j :: 0 <= j < i ==> !Agreement.RepeatsStart(rows, es[..i], j, Answers(rows, es)[i].value.pk)
                                        && Agreement.SendsNoNul(es[..i][j], Answers(rows, es)[i].value.pk)
    ensures var (card, s) := (Answers(rows, es)[i].value, Run(Boot(rows), es[..i]));
            card.pk in s.rows && card.record == s.rows[card.pk]
  {
    AnswerAt(rows, es, i);
    Agreement.CacheIsRow(rows, es[..i], Answers(rows, es)[i].value.pk);
  }

  /** The state before input `i`, told from the inputs. */
  lemma Prefix(inputs: seq<Input>, i: nat)
    requires AllSized(inputs) && i <= |inputs|
    ensures AllSized(inputs[..i]) && EventsOf(inputs[..i]) == EventsOf(inputs)[..i]
  {
  }

  predicate SaysGet(i: Input)
    requires Sized(i)
  {
    EventOf(i).Message? && EventOf(i).cmd.Get?
  }

  lemma SaysGetIff(i: Input)
    requires Sized(i)
    ensures SaysGet(i) <==> i.Text? && CommandLine.AsksFor(i.text, "get")
    ensures SaysGet(i) ==> EventOf(i).pk == i.pk
  {
    if i.Text? {
      CommandLine.InterpretIff(i.text);
    }
  }

  /** Told from the inputs: somebody is shown only to a text with /get, never to himself and only if he agreed. */
  lemma WhoIsShown(rows: map<string, Row>, inputs: seq<Input>, i: nat)
    requires AllSized(inputs) && i < |inputs| && Answers(rows, EventsOf(inputs))[i].Some?
    ensures var (p, x) := (Answers(rows, EventsOf(inputs))[i].value.pk, inputs[i]);
            x.Text? && CommandLine.AsksFor(x.text, "get") && p != x.pk && Agreed(rows, inputs[..i], p)
  {
    var p := Answers(rows, EventsOf(inputs))[i].value.pk;
    AnswersAreConsensual(rows, EventsOf(inputs), i);
    SaysGetIff(inputs[i]);
    Prefix(inputs, i);
    AgreedIff(rows, inputs[..i], p);
  }

  /** And if /start came from connected friends, nobody is shown exactly when nobody else is up and agreed. */
  lemma NobodyIsShownIff(rows: map<string, Row>, inputs: seq<Input>, i: nat)
    requires AllSized(inputs) && i < |inputs| && StartsUp(inputs[..i])
    requires inputs[i].Text? && CommandLine.AsksFor(inputs[i].text, "get")
    ensures Answers(rows, EventsOf(inputs))[i].None?
            <==> forall p :: p != inputs[i].pk ==> !(Up(inputs[..i], p) && Agreed(rows, inputs[..i], p))
  {
    var front := inputs[..i];
    Prefix(inputs, i);
    SaysGetIff(inputs[i]);
    StartsUpIff(front);
    AnswersAre(rows, EventsOf(inputs), i);
    hide *;
    forall p
      ensures Up(front, p) <==> Online(EventsOf(front), p)
      ensures Agreed(rows, front, p) <==> Consented(rows, EventsOf(front), p)
    {
      UpIff(front, p);
      AgreedIff(rows, front, p);
    }
  }

  /** Of every answer of a run: whom it may show, and when it shows nobody. */
  lemma AllAnswers(rows: map<string, Row>, inputs: seq<Input>)
    requires AllSized(inputs)
    ensures var shown := Answers(rows, EventsOf(inputs));
            && (forall i :: 0 <= i < |shown| && shown[i].Some? ==>
                  && inputs[i].Text? && CommandLine.AsksFor(inputs[i].text, "get") && shown[i].value.pk != inputs[i].pk
                  && Agreed(rows, inputs[..i], shown[i].value.pk))
            && (forall i :: 0 <= i < |shown| && StartsUp(inputs[..i])
                            && inputs[i].Text? && CommandLine.AsksFor(inputs[i].text, "get") ==>
                  (shown[i].None? <==> forall p :: p != inputs[i].pk ==>
                     !(Up(inputs[..i], p) && Agreed(rows, inputs[..i], p))))
  {
    hide *;
    var shown := Answers(rows, EventsOf(inputs));
    forall i | 0 <= i < |shown| && shown[i].Some?
      ensures inputs[i].Text? && CommandLine.AsksFor(inputs[i].text, "get") && shown[i].value.pk != inputs[i].pk
      ensures Agreed(rows, inputs[..i], shown[i].value.pk)
    {
      WhoIsShown(rows, inputs, i);
    }
    forall i | 0 <= i < |shown| && StartsUp(inputs[..i]) && inputs[i].Text? && CommandLine.AsksFor(inputs[i].text, "get")
      ensures shown[i].None? <==> forall p :: p != inputs[i].pk ==> !(Up(inputs[..i], p) && Agreed(rows, inputs[..i], p))
    {
      NobodyIsShownIff(rows, inputs, i);
    }
  }
}
