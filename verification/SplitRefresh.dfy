/**
 The refresh handler as it is awaited (master/api/auth.py): it looks its token up
 in one step and revokes and replaces it in a later one, with any other handlers
 between.  As long as every update finds its token still alive, the handlers
 might as well have run one after another.
 */
module SplitRefresh {
  import opened Common
  import R = RefreshTokens

  /** A refresh between its halves: what it was asked, and the row it looked up. */
  datatype Pending = Pending(q: R.Request, spent: nat)

  datatype State = State(rows: seq<R.Row>, pending: seq<Option<Pending>>)

  /** A handler up to its update, or as a whole if it has none to wait for; and the update of a refresh. */
  datatype Event = Handle(q: R.Request) | Update(i: nat)

  /** The request is a refresh whose first half finds nothing wrong. */
  predicate LooksUp(rows: seq<R.Row>, q: R.Request) {
    && q.Refresh? && q.subject.Some? && q.subject.value != R.DEMO_USER_ID && q.active
    && R.Find(rows, q.hash).Some?
    && var spent := R.Find(rows, q.hash).value; !rows[spent].revoked && q.now <= rows[spent].expiresAt
  }

  function Rotated(rows: seq<R.Row>, p: Pending): seq<R.Row>
    requires p.q.Refresh?
  {
    if p.spent >= |rows| then rows
    else
      match R.Rotate(rows, p.spent, p.q.newHash, p.q.expiresAt)
      case None => rows
      case Some(after) => after
  }

  predicate Waits(s: State, i: nat) {
    i < |s.pending| && s.pending[i].Some? && s.pending[i].value.q.Refresh?
  }

  function Advance(s: State, e: Event): State {
    match e
    case Handle(q) =>
      if LooksUp(s.rows, q) then s.(pending := s.pending + [Some(Pending(q, R.Find(s.rows, q.hash).value))])
      else s.(rows := R.Step(s.rows, q).0)
    case Update(i) =>
      if Waits(s, i) then State(Rotated(s.rows, s.pending[i].value), s.pending[i := None]) else s
  }

  function Run(events: seq<Event>): State {
    if events == [] then State([], []) else Advance(Run(events[..|events| - 1]), events[|events| - 1])
  }

  /** Random family identifiers do not repeat. */
  predicate Fresh(s: State, e: Event) {
    e.Handle? ==> R.FreshFamily(s.rows, e.q)
  }

  /** An update finds the token it looked up still alive. */
  predicate Careful(s: State, e: Event) {
    e.Update? && Waits(s, e.i) ==> R.Live(s.rows, s.pending[e.i].value.spent)
  }

  predicate CarefulRun(events: seq<Event>) {
    events == [] || (var n := |events| - 1;
                     && CarefulRun(events[..n])
                     && Fresh(Run(events[..n]), events[n]) && Careful(Run(events[..n]), events[n]))
  }

  // --- careful runs are runs of whole handlers ---

  /** The request that runs as a whole where the event stands: a refresh at its update. */
  function Whole(s: State, e: Event): seq<R.Request> {
    match e
    case Handle(q) => if LooksUp(s.rows, q) then [] else [q]
    case Update(i) => if Waits(s, i) then [s.pending[i].value.q] else []
  }

  function Wholes(events: seq<Event>): seq<R.Request> {
    if events == [] then []
    else
      var n := |events| - 1;
      Wholes(events[..n]) + Whole(Run(events[..n]), events[n])
  }

  /** What a waiting refresh looked up is still the row of its token. */
  predicate StillItsRow(rows: seq<R.Row>, p: Pending) {
    && p.q.Refresh? && p.q.subject.Some? && p.q.subject.value != R.DEMO_USER_ID && p.q.active
    && p.spent < |rows| && rows[p.spent].hash == p.q.hash && p.q.now <= rows[p.spent].expiresAt
  }

  ghost predicate Inv(s: State) {
    && R.Inv(s.rows)
    && forall i :: 0 <= i < |s.pending| && s.pending[i].Some? ==> StillItsRow(s.rows, s.pending[i].value)
  }

  lemma FoundAt(rows: seq<R.Row>, i: nat)
    requires R.UniqueHashes(rows) && i < |rows|
    ensures R.Find(rows, rows[i].hash) == Some(i)
  {
    var j := R.Find(rows, rows[i].hash).value;
    assert rows[j].hash == rows[i].hash;
  }

  /** An update that finds its token alive does what the whole handler would do now. */
  lemma LiveUpdateIsWhole(rows: seq<R.Row>, p: Pending)
    requires R.Inv(rows) && StillItsRow(rows, p) && R.Live(rows, p.spent)
    ensures Rotated(rows, p) == R.Step(rows, p.q).0
  {
    hide R.Find, R.Rotate, R.NewestOnly, R.OneOwner;
    FoundAt(rows, p.spent);
  }

  lemma RowsStay(before: seq<R.Row>, after: seq<R.Row>, p: Pending)
    requires R.Extends(before, after) && StillItsRow(before, p)
    ensures StillItsRow(after, p)
  {
    assert after[p.spent] == before[p.spent] || after[p.spent] == R.Revoked(before[p.spent]);
  }

  lemma LookedUp(rows: seq<R.Row>, q: R.Request)
    requires LooksUp(rows, q)
    ensures StillItsRow(rows, Pending(q, R.Find(rows, q.hash).value))
  {
  }

  /** The rows after a careful event are those after the whole handlers it stands for. */
  lemma AdvanceIsWhole(s: State, e: Event)
    requires Inv(s) && Fresh(s, e) && Careful(s, e)
    ensures Inv(Advance(s, e))
    ensures Advance(s, e).rows == if Whole(s, e) == [] then s.rows else R.Step(s.rows, Whole(s, e)[0]).0
    ensures forall q :: q in Whole(s, e) ==> R.FreshFamily(s.rows, q)
  {
    hide R.Inv, R.Step, R.Extends, StillItsRow, LooksUp, Rotated;
    var after := Advance(s, e);
    match e {
      case Handle(q) =>
        if LooksUp(s.rows, q) {
          LookedUp(s.rows, q);
        } else {
          R.StepKeepsInv(s.rows, q);
        }
      case Update(i) =>
        if Waits(s, i) {
          var p := s.pending[i].value;
          LiveUpdateIsWhole(s.rows, p);
          R.StepKeepsInv(s.rows, p.q);
        }
    }
    forall i | 0 <= i < |after.pending| && after.pending[i].Some?
      ensures StillItsRow(after.rows, after.pending[i].value)
    {
      if i < |s.pending| && after.rows != s.rows {
        RowsStay(s.rows, after.rows, after.pending[i].value);
      }
    }
  }

  lemma WholeRun(requests: seq<R.Request>, q: R.Request)
    requires R.Possible(requests) && R.FreshFamily(R.Run(requests), q)
    ensures R.Possible(requests + [q]) && R.Run(requests + [q]) == R.Step(R.Run(requests), q).0
  {
    hide R.Step, R.FreshFamily;
    assert (requests + [q])[..|requests|] == requests;
  }

  /**
   Any run in which every update finds its token alive leaves the rows that its
   whole handlers leave one after another, each refresh at its update.
   */
  lemma {:induction false} CarefulRunsAreWhole(events: seq<Event>)
    requires CarefulRun(events)
    ensures R.Possible(Wholes(events)) && Run(events).rows == R.Run(Wholes(events)) && Inv(Run(events))
  {
    hide Inv, Advance, Whole, Fresh, Careful, R.Step, R.FreshFamily;
    if events == [] {
      NothingHappened();
    } else {
      var n := |events| - 1;
      var s, before := Run(events[..n]), Wholes(events[..n]);
      CarefulRunsAreWhole(events[..n]);
      AdvanceIsWhole(s, events[n]);
      var whole := Whole(s, events[n]);
      AtMostOne(s, events[n]);
      if whole == [] {
        assert Wholes(events) == before;
      } else {
        assert whole == [whole[0]];
        WholeRun(before, whole[0]);
      }
    }
  }

  lemma NothingHappened()
    ensures Inv(State([], []))
  {
  }

  lemma AtMostOne(s: State, e: Event)
    ensures |Whole(s, e)| <= 1
  {
  }

  /** So at every moment of it each family has at most one live token, its newest. */
  lemma CarefulRunsKeepNewestOnly(events: seq<Event>)
    requires CarefulRun(events)
    ensures R.NewestOnly(Run(events).rows)
  {
    CarefulRunsAreWhole(events);
  }

  lemma {:induction false} LaterWholes(events: seq<Event>, more: seq<Event>) returns (rest: seq<R.Request>)
    requires CarefulRun(events + more)
    ensures CarefulRun(events) && Wholes(events + more) == Wholes(events) + rest
    decreases |more|
  {
    hide CarefulRun, Wholes, Whole, Run;
    if more == [] {
      assert events + more == events;
      rest := [];
      assert Wholes(events) + rest == Wholes(events);
    } else {
      var n := |more| - 1;
      assert (events + more)[..|events + more| - 1] == events + more[..n];
      CarefulUpToLast(events + more);
      var before := LaterWholes(events, more[..n]);
      var whole := Whole(Run(events + more[..n]), more[n]);
      rest := before + whole;
      Concat3(Wholes(events), before, whole);
    }
  }

  lemma CarefulUpToLast(events: seq<Event>)
    requires CarefulRun(events) && events != []
    ensures var n := |events| - 1;
            CarefulRun(events[..n]) && Wholes(events) == Wholes(events[..n]) + Whole(Run(events[..n]), events[n])
  {
    hide Run, Whole, Fresh, Careful;
  }

  /** And a family that has tokens but none alive has none alive ever after. */
  lemma CarefulRunsReviveNone(events: seq<Event>, more: seq<Event>, family: string)
    requires CarefulRun(events + more)
    requires R.FamilyExists(Run(events).rows, family) && R.Dead(Run(events).rows, family)
    ensures R.Dead(Run(events + more).rows, family)
  {
    hide Advance, Whole, R.Dead, R.FamilyExists, R.NewestOnly;
    var rest := LaterWholes(events, more);
    CarefulRunsAreWhole(events);
    CarefulRunsAreWhole(events + more);
    R.DeadFamiliesStayDead(Wholes(events), rest, family);
  }

  /** The first update that finds its token no longer alive, if it inserts at all, breaks one of the two promises. */
  lemma FirstCarelessUpdateBreaks(events: seq<Event>, i: nat)
    requires CarefulRun(events) && Waits(Run(events), i)
    ensures var s := Run(events);
            var p, after := s.pending[i].value, Advance(s, Update(i)).rows;
            after != s.rows ==>
              (R.NewestOnly(after) && R.RevivesNone(s.rows, after) <==> R.Live(s.rows, p.spent))
  {
    hide Run, R.NewestOnly, R.RevivesNone, R.Rotate;
    CarefulRunsAreWhole(events);
    var s := Run(events);
    var p := s.pending[i].value;
    if p.spent < |s.rows| && R.Rotate(s.rows, p.spent, p.q.newHash, p.q.expiresAt).Some? {
      R.LateRotationIsSafeExactlyIfLive(s.rows, p.spent, p.q.newHash, p.q.expiresAt);
    }
  }
}
