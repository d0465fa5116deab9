/**
 When the cached copy of a record agrees with its row, field by field.

 The two can part in two ways: a /start by an already cached user rewrites the row and leaves the
 cached copy alone, and a parameter holding a NUL is stored whole in the cache but cut in the row.
 */
module Agreement {
  import opened Wrappers
  import opened Directory
  import opened Consent

  datatype Field = TokId | NickName | Bio | Signature

  function Get(r: Row, f: Field): string {
    match f
    case TokId => r.tokId
    case NickName => r.nickName
    case Bio => r.bio
    case Signature => r.signature
  }

  /** The value `e` gives field `f` of `p`'s row, if `p` has a row afterwards. */
  function Written(e: Event, p: string, f: Field): Option<string> {
    if Registers(e, p) then Some(Get(NewRow(e.cmd.tokId, e.profile.name.value, e.profile.bio.value), f))
    else if e.Message? && e.pk == p && e.cmd.Set? && e.cmd.signature != "" && f.Signature? then Some(CStr(e.cmd.signature))
    else if e.NameChanged? && e.pk == p && f.NickName? then Some(CStr(e.name))
    else if e.BioChanged? && e.pk == p && f.Bio? then Some(CStr(e.bio))
    else None
  }

  ghost predicate WritesNothing(es: seq<Event>, from: nat, p: string, f: Field) {
    forall k :: from <= k < |es| ==> Written(es[k], p, f).None?
  }

  lemma WriteStep(s: State, e: Event, p: string, f: Field)
    requires p in Step(s, e).rows
    ensures Written(e, p, f).Some? ==> Get(Step(s, e).rows[p], f) == Written(e, p, f).value
    ensures Written(e, p, f).None? ==> p in s.rows && Get(Step(s, e).rows[p], f) == Get(s.rows[p], f)
  {
  }

  /** Last write wins, over whole runs with any stops, restarts and other users in between. */
  lemma {:induction false} LastWriteWins(initial: map<string, Row>, es: seq<Event>, p: string, f: Field, j: nat)
    requires p in Run(Boot(initial), es).rows
    requires j < |es| && Written(es[j], p, f).Some? && WritesNothing(es, j + 1, p, f)
    ensures Get(Run(Boot(initial), es).rows[p], f) == Written(es[j], p, f).value
  {
    var n := |es| - 1;
    WriteStep(Run(Boot(initial), es[..n]), es[n], p, f);
    if j < n {
      LastWriteWins(initial, es[..n], p, f, j);
    }
  }

  /** A field nobody has written is the initial table's. */
  lemma {:induction false} UnwrittenIsInitial(initial: map<string, Row>, es: seq<Event>, p: string, f: Field)
    requires p in Run(Boot(initial), es).rows && WritesNothing(es, 0, p, f)
    ensures p in initial && Get(Run(Boot(initial), es).rows[p], f) == Get(initial[p], f)
  {
    if es != [] {
      var n := |es| - 1;
      WriteStep(Run(Boot(initial), es[..n]), es[n], p, f);
      UnwrittenIsInitial(initial, es[..n], p, f);
    }
  }

  /** Does `e` write field `f` of `p`'s row or cached copy, or put the copy into or out of the cache? */
  predicate Touches(s: State, e: Event, p: string, f: Field) {
    match e
    case Connected(q) => q == p && p !in s.cache
    case Disconnected(q) => q == p
    case Message(q, cmd, profile, _) =>
      q == p && (RegistersAs(cmd, profile) || cmd.Stop? || (cmd.Set? && cmd.signature != "" && f.Signature?))
    case NameChanged(q, _) => q == p && f.NickName?
    case BioChanged(q, _) => q == p && f.Bio?
    case Restart => true
  }

  ghost predicate LastTouch(s: State, es: seq<Event>, p: string, f: Field, j: nat) {
    && j < |es|
    && Touches(Run(s, es[..j]), es[j], p, f)
    && Untouched(s, es, p, f, j + 1)
  }

  ghost predicate Untouched(s: State, es: seq<Event>, p: string, f: Field, from: nat) {
    forall k :: from <= k < |es| ==> !Touches(Run(s, es[..k]), es[k], p, f)
  }

  /** Whether the touching event `e`, taken in `s`, leaves row and cached copy with the same field `f`. */
  predicate LeavesAgreement(s: State, e: Event, p: string, f: Field) {
    match e
    case Message(_, cmd, profile, _) =>
      (match cmd
       case Start(tokId) =>
         if p in s.cache then
           RegistersAs(cmd, profile)
           && Get(s.cache[p], f) == Get(NewRow(tokId, profile.name.value, profile.bio.value), f)
         else f.TokId? ==> NulFree(tokId)
       case Set(signature) => NulFree(signature)
       case _ => false)
    case _ => true
  }

  /** A cached record was put there by some event of the run, so its fields have a last touch. */
  lemma {:induction false} LastTouchExists(initial: map<string, Row>, es: seq<Event>, p: string, f: Field)
    requires p in Run(Boot(initial), es).cache
    ensures exists j: nat :: LastTouch(Boot(initial), es, p, f, j)
  {
    var s0 := Boot(initial);
    var n := |es| - 1;
    var front := es[..n];
    if Touches(Run(s0, front), es[n], p, f) {
      assert LastTouch(s0, es, p, f, n);
    } else {
      assert p in Run(s0, front).cache;
      LastTouchExists(initial, front, p, f);
      var j: nat :| LastTouch(s0, front, p, f, j);
      assert front[..j] == es[..j];
      forall k | j + 1 <= k < |es| ensures !Touches(Run(s0, es[..k]), es[k], p, f) {
        if k < n { assert front[..k] == es[..k]; }
      }
      assert LastTouch(s0, es, p, f, j);
    }
  }

  /** An event that does not touch a field leaves both sides of it as they were. */
  lemma UntouchedStep(s: State, e: Event, p: string, f: Field)
    requires s.cache.Keys <= s.rows.Keys
    requires p in Step(s, e).cache && !Touches(s, e, p, f)
    ensures p in s.cache && p in Step(s, e).rows
    ensures Get(Step(s, e).cache[p], f) == Get(s.cache[p], f)
    ensures Get(Step(s, e).rows[p], f) == Get(s.rows[p], f)
  {
  }

  /** From a touch on, nothing changes until the next touch. */
  lemma {:induction false} FrozenSince(initial: map<string, Row>, es: seq<Event>, p: string, f: Field, j: nat, i: nat)
    requires j <= i <= |es|
    requires p in Run(Boot(initial), es[..i]).cache
    requires Untouched(Boot(initial), es, p, f, j)
    ensures var (s, t) := (Run(Boot(initial), es[..j]), Run(Boot(initial), es[..i]));
            && p in s.cache && p in s.rows && p in t.rows
            && Get(t.cache[p], f) == Get(s.cache[p], f)
            && Get(t.rows[p], f) == Get(s.rows[p], f)
    decreases i
  {
    CacheBetween(initial, es[..i]);
    if j < i {
      RunNext(Boot(initial), es, i - 1);
      CacheBetween(initial, es[..i - 1]);
      UntouchedStep(Run(Boot(initial), es[..i - 1]), es[i - 1], p, f);
      FrozenSince(initial, es, p, f, j, i - 1);
    }
  }

  lemma TouchDecides(s: State, e: Event, p: string, f: Field)
    requires s.cache.Keys <= s.rows.Keys
    requires Touches(s, e, p, f) && p in Step(s, e).cache
    ensures p in Step(s, e).rows
    ensures Get(Step(s, e).cache[p], f) == Get(Step(s, e).rows[p], f) <==> LeavesAgreement(s, e, p, f)
  {
  }

  /**
   Divergence, tracked exactly: field `f` of a cached record equals the row's if and only if the last event
   that touched it was neither a /start that met the record in the cache with another value, nor a parameter
   with a NUL in it.
   */
  lemma FieldAgreesIff(initial: map<string, Row>, es: seq<Event>, p: string, f: Field, j: nat)
    requires p in Run(Boot(initial), es).cache
    requires LastTouch(Boot(initial), es, p, f, j)
    ensures var s := Run(Boot(initial), es);
            && p in s.rows
            && (Get(s.cache[p], f) == Get(s.rows[p], f) <==> LeavesAgreement(Run(Boot(initial), es[..j]), es[j], p, f))
  {
    var s0 := Boot(initial);
    assert es[..|es|] == es;
    RunNext(s0, es, j);
    FrozenSince(initial, es, p, f, j + 1, |es|);
    CacheBetween(initial, es[..j]);
    TouchDecides(Run(s0, es[..j]), es[j], p, f);
  }

  ghost predicate RepeatsStart(initial: map<string, Row>, es: seq<Event>, i: nat, p: string) {
    i < |es| && Registers(es[i], p) && p in Run(Boot(initial), es[..i]).cache
  }

  predicate SendsNoNul(e: Event, p: string) {
    e.Message? && e.pk == p ==> (e.cmd.Start? ==> NulFree(e.cmd.tokId)) && (e.cmd.Set? ==> NulFree(e.cmd.signature))
  }

  /** The last touch of a field of a record that is still cached is not a removal. */
  lemma TouchKeepsCached(initial: map<string, Row>, es: seq<Event>, p: string, f: Field, j: nat)
    requires p in Run(Boot(initial), es).cache
    requires LastTouch(Boot(initial), es, p, f, j)
    ensures p in Step(Run(Boot(initial), es[..j]), es[j]).cache
    ensures es[j].Message? ==> !es[j].cmd.Stop?
  {
    assert es[..|es|] == es;
    RunNext(Boot(initial), es, j);
    FrozenSince(initial, es, p, f, j + 1, |es|);
  }

  lemma FieldIsRows(initial: map<string, Row>, es: seq<Event>, p: string, f: Field)
    requires p in Run(Boot(initial), es).cache
    requires forall i :: 0 <= i < |es| ==> !RepeatsStart(initial, es, i, p) && SendsNoNul(es[i], p)
    ensures var s := Run(Boot(initial), es);
            p in s.rows && Get(s.cache[p], f) == Get(s.rows[p], f)
  {
    LastTouchExists(initial, es, p, f);
    var j: nat :| LastTouch(Boot(initial), es, p, f, j);
    FieldAgreesIff(initial, es, p, f, j);
    TouchKeepsCached(initial, es, p, f, j);
    assert !RepeatsStart(initial, es, j, p) && SendsNoNul(es[j], p);
    assert LeavesAgreement(Run(Boot(initial), es[..j]), es[j], p, f);
  }

  /** In a run where `p` never repeats /start while cached and sends no NUL, its cached record is its row. */
  lemma CacheIsRow(initial: map<string, Row>, es: seq<Event>, p: string)
    requires p in Run(Boot(initial), es).cache
    requires forall i :: 0 <= i < |es| ==> !RepeatsStart(initial, es, i, p) && SendsNoNul(es[i], p)
    ensures var s := Run(Boot(initial), es);
            p in s.rows && s.cache[p] == s.rows[p]
  {
    FieldIsRows(initial, es, p, TokId);
    FieldIsRows(initial, es, p, NickName);
    FieldIsRows(initial, es, p, Bio);
    FieldIsRows(initial, es, p, Signature);
  }

  /**
   What a repeated /start costs, for every run: /get goes on showing the old ids although the row has the new
   ones, and the signature is wiped from the row only, until the record leaves the cache.
   */
  lemma RepeatedStartIsNotShown(initial: map<string, Row>, es: seq<Event>, p: string, tokId: string, profile: Profile, roll: nat)
    requires p in Run(Boot(initial), es).cache
    requires RegistersAs(Start(tokId), profile)
    ensures var s := Run(Boot(initial), es + [Message(p, Start(tokId), profile, roll)]);
            && s.cache == Run(Boot(initial), es).cache
            && p in s.rows && s.rows[p] == Row(CStr(tokId), CStr(profile.name.value), CStr(profile.bio.value), "")
    ensures var t := Run(Boot(initial), es + [Message(p, Start(tokId), profile, roll), Disconnected(p), Connected(p)]);
            p in t.cache && p in t.rows && t.cache[p] == t.rows[p]
            && t.rows[p] == Row(CStr(tokId), CStr(profile.name.value), CStr(profile.bio.value), "")
  {
    var s0 := Boot(initial);
    var again := Message(p, Start(tokId), profile, roll);
    RunSplit(s0, es, [again]);
    RunSplit(s0, es, [again, Disconnected(p), Connected(p)]);
    var s := Run(s0, es);
    assert [again, Disconnected(p), Connected(p)][..2] == [again, Disconnected(p)];
    assert [again, Disconnected(p)][..1] == [again];
    assert Run(s, [again]) == Step(s, again);
    assert Run(s, [again, Disconnected(p)]) == Step(Step(s, again), Disconnected(p));
    assert Run(s, [again, Disconnected(p), Connected(p)]) == Step(Step(Step(s, again), Disconnected(p)), Connected(p));
  }

  /** A Tok ID with a NUL in it: the cache has the whole of it, the row what stands before the NUL. */
  lemma NulPartsTheTwo(initial: map<string, Row>, p: string, tokId: string, profile: Profile, roll: nat)
    requires tokId != "" && !NulFree(tokId) && profile.name.Some? && profile.bio.Some? && p !in initial
    ensures var s := Run(Boot(initial), [Connected(p), Message(p, Start(tokId), profile, roll)]);
            && p in s.cache && p in s.rows
            && s.cache[p].tokId == tokId && s.rows[p].tokId == CStr(tokId) != tokId
  {
    var a, b := Connected(p), Message(p, Start(tokId), profile, roll);
    assert [a, b][..1] == [a];
    assert Run(Boot(initial), [a]) == Step(Boot(initial), a);
  }

  /** For one, "A", NUL, "B". */
  lemma NulPartsTheTwoAt(p: string, profile: Profile, roll: nat)
    requires profile.name.Some? && profile.bio.Some?
    ensures var s := Run(Boot(map[]), [Connected(p), Message(p, Start("A\0B"), profile, roll)]);
            p in s.cache && p in s.rows && s.cache[p].tokId == "A\0B" && s.rows[p].tokId == "A"
  {
    var tokId := "A\0B";
    assert tokId[1] == '\0';
    NulPartsTheTwo(map[], p, tokId, profile, roll);
    assert CStr(tokId[1..]) == "";
    assert CStr(tokId) == "A";
  }
}
