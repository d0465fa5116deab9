/**
 Who may be recommended. Membership of the table, of the connected friends and of the cache are each
 tied to what happened in the run, for runs of any length with any number of restarts.
 */
module Consent {
  import opened Wrappers
  import opened Recommend
  import opened Directory

  /**
   `p` asked to be recommended and has not withdrawn since: either its last carried-out /start has no
   /stop after it, or it was registered before the run and never sent /stop.
   */
  ghost predicate Consented(initial: map<string, Row>, es: seq<Event>, p: string) {
    (exists j :: 0 <= j < |es| && Registers(es[j], p) && NoStopSince(es, j + 1, p))
    || (p in initial && NoStopSince(es, 0, p))
  }

  ghost predicate NoStopSince(es: seq<Event>, from: nat, p: string) {
    forall k :: from <= k < |es| ==> !Withdraws(es[k], p)
  }

  /** The last connection event of `p` since the last restart says it is connected. */
  ghost predicate Online(es: seq<Event>, p: string) {
    exists j :: 0 <= j < |es| && es[j] == Connected(p) && StaysUp(es, j + 1, p)
  }

  ghost predicate StaysUp(es: seq<Event>, from: nat, p: string) {
    forall k :: from <= k < |es| ==> es[k] != Disconnected(p) && es[k] != Restart
  }

  /** Every carried-out /start comes from a friend who is connected at that moment. */
  ghost predicate StartsOnline(es: seq<Event>) {
    forall i, p :: 0 <= i < |es| && Registers(es[i], p) ==> Online(es[..i], p)
  }

  lemma {:induction false} TableIsConsent(initial: map<string, Row>, es: seq<Event>, p: string)
    ensures p in Run(Boot(initial), es).rows <==> Consented(initial, es, p)
  {
    if es != [] {
      var n := |es| - 1;
      var front := es[..n];
      TableIsConsent(initial, front, p);
      forall j | 0 <= j <= n ensures NoStopSince(es, j, p) <==> NoStopSince(front, j, p) && !Withdraws(es[n], p) {
        assert forall k :: 0 <= k < n ==> front[k] == es[k];
      }
      if Registers(es[n], p) {
        assert NoStopSince(es, n + 1, p);
      } else if Withdraws(es[n], p) {
        assert !Consented(initial, es, p);
      } else {
        assert forall j :: 0 <= j < n ==> front[j] == es[j];
        assert Consented(initial, front, p) <==> Consented(initial, es, p);
      }
    }
  }

  lemma {:induction false} ConnectedIsOnline(initial: map<string, Row>, es: seq<Event>, p: string)
    ensures p in Run(Boot(initial), es).connected <==> Online(es, p)
  {
    if es != [] {
      var n := |es| - 1;
      var front := es[..n];
      ConnectedIsOnline(initial, front, p);
      assert forall j :: 0 <= j < n ==> front[j] == es[j];
      if es[n] == Connected(p) {
        assert StaysUp(es, n + 1, p);
      } else if es[n] == Disconnected(p) || es[n] == Restart {
        assert !Online(es, p);
      } else {
        forall j | 0 <= j <= n ensures StaysUp(es, j, p) <==> StaysUp(front, j, p) {
        }
        assert Online(front, p) <==> Online(es, p);
      }
    }
  }

  ghost predicate Between(s: State) {
    s.connected * s.rows.Keys <= s.cache.Keys <= s.rows.Keys
  }

  lemma BetweenStep(s: State, e: Event)
    requires Between(s)
    ensures Between(Step(s, e))
  {
  }

  /** In every run a connected registered friend is cached, and only registered friends are cached. */
  lemma {:induction false} CacheBetween(initial: map<string, Row>, es: seq<Event>)
    ensures var s := Run(Boot(initial), es);
            s.connected * s.rows.Keys <= s.cache.Keys <= s.rows.Keys
  {
    if es != [] {
      hide Step;
      CacheBetween(initial, es[..|es| - 1]);
      BetweenStep(Run(Boot(initial), es[..|es| - 1]), es[|es| - 1]);
    }
  }

  ghost predicate KeysExact(s: State) {
    s.cache.Keys == s.connected * s.rows.Keys
  }

  /**
   The cached keys are exactly the connected registered friends, after every prefix of a run, if and
   only if every carried-out /start of the run came from a connected friend.
   */
  lemma KeysExactIff(initial: map<string, Row>, es: seq<Event>)
    ensures (forall i :: 0 <= i <= |es| ==> KeysExact(Run(Boot(initial), es[..i]))) <==> StartsOnline(es)
  {
    if StartsOnline(es) {
      forall i | 0 <= i <= |es| ensures KeysExact(Run(Boot(initial), es[..i])) {
        OnlineStartsKeepKeysExact(initial, es, i);
      }
    } else {
      var i, p :| 0 <= i < |es| && Registers(es[i], p) && !Online(es[..i], p);
      ConnectedIsOnline(initial, es[..i], p);
      RunNext(Boot(initial), es, i);
      assert !KeysExact(Run(Boot(initial), es[..i + 1])) by {
        assert p in Run(Boot(initial), es[..i + 1]).cache.Keys;
      }
    }
  }

  lemma KeysExactStep(s: State, e: Event)
    requires KeysExact(s)
    requires e.Message? && Registers(e, e.pk) ==> e.pk in s.connected
    ensures KeysExact(Step(s, e))
  {
  }

  lemma {:induction false} OnlineStartsKeepKeysExact(initial: map<string, Row>, es: seq<Event>, i: nat)
    requires StartsOnline(es) && i <= |es|
    ensures KeysExact(Run(Boot(initial), es[..i]))
  {
    if i > 0 {
      hide Step;
      hide KeysExact;
      OnlineStartsKeepKeysExact(initial, es, i - 1);
      RunNext(Boot(initial), es, i - 1);
      var e := es[i - 1];
      if e.Message? && Registers(e, e.pk) {
        ConnectedIsOnline(initial, es[..i - 1], e.pk);
      }
      KeysExactStep(Run(Boot(initial), es[..i - 1]), e);
    }
  }

  /**
   Consent, over whole runs. Whoever /get shows to `requester` is somebody else who has consented; nothing
   is assumed of the run.
   */
  lemma OnlyConsentingMembersAreShown(initial: map<string, Row>, es: seq<Event>, requester: string, roll: nat)
    ensures var shown := Recommended(Run(Boot(initial), es), requester, roll);
            shown.Some? ==> shown.value != requester && Consented(initial, es, shown.value)
  {
    var shown := Recommended(Run(Boot(initial), es), requester, roll);
    if shown.Some? {
      CacheBetween(initial, es);
      TableIsConsent(initial, es, shown.value);
    }
  }

  /** Being cached, told from the run alone. */
  lemma CachedIff(initial: map<string, Row>, es: seq<Event>, p: string)
    requires StartsOnline(es)
    ensures p in Run(Boot(initial), es).cache <==> Online(es, p) && Consented(initial, es, p)
  {
    assert es[..|es|] == es;
    OnlineStartsKeepKeysExact(initial, es, |es|);
    TableIsConsent(initial, es, p);
    ConnectedIsOnline(initial, es, p);
    assert p in Run(Boot(initial), es).cache.Keys <==> p in Run(Boot(initial), es).cache;
  }

  lemma ShowableIff(s: State, requester: string, p: string)
    ensures (exists roll: nat :: Recommended(s, requester, roll) == Some(p)) <==> p in s.cache && p != requester
  {
    if p in s.cache && p != requester {
      var i := ChooseReachesEveryone(s.cache.Keys, requester, p);
      assert Recommended(s, requester, i) == Some(p);
    }
  }

  /**
   When /start only comes from connected friends, the friends some roll of /get can show are exactly the
   other friends who are online and have consented.
   */
  lemma ShownIsOnlineAndConsenting(initial: map<string, Row>, es: seq<Event>, requester: string, p: string)
    requires StartsOnline(es)
    ensures (exists roll: nat :: Recommended(Run(Boot(initial), es), requester, roll) == Some(p))
            <==> p != requester && Online(es, p) && Consented(initial, es, p)
  {
    CachedIff(initial, es, p);
    ShowableIff(Run(Boot(initial), es), requester, p);
  }

  /** /get finds nobody exactly when no other friend is both online and consenting, whatever is rolled. */
  lemma GetFindsNobodyIff(initial: map<string, Row>, es: seq<Event>, requester: string, roll: nat)
    requires StartsOnline(es)
    ensures Recommended(Run(Boot(initial), es), requester, roll).None?
            <==> forall p :: p != requester ==> !(Online(es, p) && Consented(initial, es, p))
  {
    var keys := Run(Boot(initial), es).cache.Keys;
    ChooseFindsSomeoneElse(keys, requester, roll);
    forall p ensures p in keys <==> Online(es, p) && Consented(initial, es, p) {
      CachedIff(initial, es, p);
    }
    assert keys <= {requester} <==> forall p :: p in keys ==> p == requester;
  }
}
