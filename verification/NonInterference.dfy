/** No user's events reach another user's row or cached record. */
module NonInterference {
  import opened Wrappers
  import opened Directory

  /** Everything the directory holds about one user. */
  datatype View = View(connected: bool, row: Option<Row>, cached: Option<Row>)

  function Lookup(m: map<string, Row>, p: string): Option<Row> {
    if p in m then Some(m[p]) else None
  }

  function ViewOf(s: State, p: string): View {
    View(p in s.connected, Lookup(s.rows, p), Lookup(s.cache, p))
  }

  predicate Concerns(e: Event, p: string) {
    e.Restart? || e.pk == p
  }

  /** The run as `p` alone makes it: its own events and the restarts. */
  function OwnEvents(es: seq<Event>, p: string): seq<Event> {
    if es == [] then []
    else
      var own := OwnEvents(es[..|es| - 1], p);
      var e := es[|es| - 1];
      if Concerns(e, p) then own + [e] else own
  }

  lemma OthersLeaveTheView(s: State, e: Event, p: string)
    requires !Concerns(e, p)
    ensures ViewOf(Step(s, e), p) == ViewOf(s, p)
  {
  }

  lemma StepReadsOnlyTheView(s: State, t: State, e: Event, p: string)
    requires ViewOf(s, p) == ViewOf(t, p) && Concerns(e, p)
    ensures ViewOf(Step(s, e), p) == ViewOf(Step(t, e), p)
  {
    assert p in s.rows <==> p in t.rows;
    assert p in s.cache <==> p in t.cache;
  }

  lemma {:induction false} ViewFromOwnEvents(s: State, t: State, es: seq<Event>, p: string)
    requires ViewOf(s, p) == ViewOf(t, p)
    ensures ViewOf(Run(s, es), p) == ViewOf(Run(t, OwnEvents(es, p)), p)
  {
    if es != [] {
      var front, e := es[..|es| - 1], es[|es| - 1];
      ViewFromOwnEvents(s, t, front, p);
      if Concerns(e, p) {
        StepReadsOnlyTheView(Run(s, front), Run(t, OwnEvents(front, p)), e, p);
      } else {
        OthersLeaveTheView(Run(s, front), e, p);
      }
    }
  }

  /**
   Non-interference: two runs that agree on where `p` starts and on what `p` itself does leave `p` with the
   same connection, row and cached record, whatever all the other users do in either run.
   */
  lemma SameOwnEventsSameView(s: State, t: State, es: seq<Event>, fs: seq<Event>, p: string)
    requires ViewOf(s, p) == ViewOf(t, p)
    requires OwnEvents(es, p) == OwnEvents(fs, p)
    ensures ViewOf(Run(s, es), p) == ViewOf(Run(t, fs), p)
  {
    ViewFromOwnEvents(s, t, es, p);
    ViewFromOwnEvents(t, t, fs, p);
  }
}
