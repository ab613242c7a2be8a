/**
 What an investigation's row says about its coroutine
 (master/core/investigation_manager.py): in every run the status column and the
 verdict are fixed, both ways, by how the operations it awaited ended.
 */
module InvestigationStories {
  import opened Common
  import opened Investigations

  /** The awaits whose end decides something. */
  datatype Point = Drop | Insert | Open | Mark | Analysis | Save | Note

  function PointOf(stage: Stage): Option<Point> {
    match stage
    case Dropping => Some(Drop)
    case Inserting => Some(Insert)
    case Opening => Some(Open)
    case Marking => Some(Mark)
    case Analysing => Some(Analysis)
    case Saving(_) => Some(Save)
    case Failing => Some(Note)
    case _ => None
  }

  /** The event resumes the job where it awaits `p`, and the await has ended this way. */
  predicate Ends(m: Manager, e: Event, i: nat, p: Point, how: How) {
    e == Resume(i, how) && i < |m.jobs| && PointOf(m.jobs[i].stage) == Some(p) && Step(m, e).Some?
  }

  /** How a job's awaits ended in a run. */
  function Story(max: nat, events: seq<Event>, i: nat): set<(Point, How)> {
    if events == [] then {}
    else
      var n := |events| - 1;
      var m, before := Run(max, events[..n]), Story(max, events[..n], i);
      if i < |m.jobs| && PointOf(m.jobs[i].stage).Some? && events[n].Resume? && events[n].job == i &&
         Step(m, events[n]).Some?
      then before + {(PointOf(m.jobs[i].stage).value, events[n].how)}
      else before
  }

  /** Some event of the run ended the job's await at this point in this way. */
  ghost predicate EndedIn(max: nat, events: seq<Event>, i: nat, p: Point, how: How) {
    exists k :: 0 <= k < |events| && Ends(Run(max, events[..k]), events[k], i, p, how)
  }

  lemma EndedInLonger(max: nat, events: seq<Event>, i: nat, p: Point, how: How)
    requires events != []
    ensures var n := |events| - 1;
            EndedIn(max, events, i, p, how) <==>
            EndedIn(max, events[..n], i, p, how) || Ends(Run(max, events[..n]), events[n], i, p, how)
  {
    hide Ends, Run;
    var n := |events| - 1;
    assert forall k :: 0 <= k <= n ==> events[..n][..k] == events[..k];
    if EndedIn(max, events[..n], i, p, how) {
      var k :| 0 <= k < n && Ends(Run(max, events[..n][..k]), events[..n][k], i, p, how);
      assert Ends(Run(max, events[..k]), events[k], i, p, how);
    }
    if EndedIn(max, events, i, p, how) {
      var k :| 0 <= k < |events| && Ends(Run(max, events[..k]), events[k], i, p, how);
      assert k < n ==> Ends(Run(max, events[..n][..k]), events[..n][k], i, p, how);
    }
  }

  /** The story tells what the events of the run did. */
  lemma {:induction false} StoryTells(max: nat, events: seq<Event>, i: nat, p: Point, how: How)
    ensures (p, how) in Story(max, events, i) <==> EndedIn(max, events, i, p, how)
  {
    hide Run, Step, EndedIn;
    if events == [] {
      NothingEnded(max, i, p, how);
    } else {
      StoryTells(max, events[..|events| - 1], i, p, how);
      EndedInLonger(max, events, i, p, how);
    }
  }

  lemma NothingEnded(max: nat, i: nat, p: Point, how: How)
    ensures !EndedIn(max, [], i, p, how)
  {
  }

  // --- what row and verdict say ---

  /** The status column, value by value. */
  predicate RowSays(row: Option<Status>, story: set<(Point, How)>) {
    && (row == Some(Dropped) <==> (Drop, Fine) in story)
    && (row == Some(Completed) <==> (Analysis, Fine) in story && (Save, Fine) in story)
    && (row == Some(Skipped) <==> (Analysis, NoModel) in story && (Save, Fine) in story)
    && (row == Some(Failed) <==> ((Analysis, Broken) in story && (Save, Fine) in story) || (Note, Fine) in story)
    && (row == Some(Queued) <==> (Insert, Fine) in story && (Mark, Fine) !in story && (Note, Fine) !in story)
    && (row == Some(InProgress) <==> (Mark, Fine) in story && (Save, Fine) !in story && (Note, Fine) !in story)
  }

  /** The failure is only noted after a status write that broke. */
  predicate NotesFailures(story: set<(Point, How)>) {
    forall how :: (Note, how) in story ==> (Mark, Broken) in story || (Save, Broken) in story
  }

  predicate VerdictSays(v: Verdict, story: set<(Point, How)>) {
    && (v == WasAccepted <==> (Insert, Fine) in story)
    && (v == WasRefused <==> (Insert, Broken) in story)
    && (v == WasAbandoned <==> (Insert, Cancelled) in story)
  }

  /** The coroutine was cut off before a final status was written. */
  predicate CutSays(cut: bool, story: set<(Point, How)>) {
    cut <==>
    || (Open, Broken) in story || (Open, Cancelled) in story
    || (Mark, Cancelled) in story || (Analysis, Cancelled) in story || (Save, Cancelled) in story
    || (Note, Broken) in story || (Note, Cancelled) in story
  }

  predicate Says(j: Job, story: set<(Point, How)>) {
    && RowSays(j.row, story) && NotesFailures(story)
    && VerdictSays(VerdictOn(j), story) && CutSays(j.cut, story)
  }

  // --- and what is yet to come ---

  /** Nothing of the story is at the job's point or past it. */
  predicate NotYet(j: Job, story: set<(Point, How)>) {
    match j.stage
    case Spawned => story == {(Insert, Fine)}
    case Dropping => story == {}
    case Inserting => story == {}
    case Opening => story == {(Insert, Fine)}
    case Marking => story == {(Insert, Fine), (Open, Fine)}
    case Analysing => story == {(Insert, Fine), (Open, Fine), (Mark, Fine)}
    case Saving(Completed) => story == {(Insert, Fine), (Open, Fine), (Mark, Fine), (Analysis, Fine)}
    case Saving(Failed) => story == {(Insert, Fine), (Open, Fine), (Mark, Fine), (Analysis, Broken)}
    case Saving(Skipped) => story == {(Insert, Fine), (Open, Fine), (Mark, Fine), (Analysis, NoModel)}
    case Saving(_) => false
    case Failing =>
      || story == {(Insert, Fine), (Open, Fine), (Mark, Broken)}
      || story == {(Insert, Fine), (Open, Fine), (Mark, Fine), (Analysis, Fine), (Save, Broken)}
      || story == {(Insert, Fine), (Open, Fine), (Mark, Fine), (Analysis, Broken), (Save, Broken)}
      || story == {(Insert, Fine), (Open, Fine), (Mark, Fine), (Analysis, NoModel), (Save, Broken)}
    case _ => true
  }

  /** After the next step everything still fits the story. */
  predicate SaysOn(j: Job, how: How, story: set<(Point, How)>)
    requires JobStep(j, how).Some?
  {
    var next := JobStep(j, how).value;
    var longer := if PointOf(j.stage).Some? then story + {(PointOf(j.stage).value, how)} else story;
    Says(next, longer) && NotYet(next, longer)
  }

  lemma AdmissionSays(j: Job, how: How, story: set<(Point, How)>)
    requires Says(j, story) && NotYet(j, story) && JobStep(j, how).Some?
    requires j.stage.Dropping? || j.stage.Inserting? || j.stage.Spawned?
    ensures SaysOn(j, how, story)
  {
  }

  lemma OpeningSays(j: Job, how: How, story: set<(Point, How)>)
    requires Says(j, story) && NotYet(j, story) && JobStep(j, how).Some?
    requires j.stage.Opening?
    ensures SaysOn(j, how, story)
  {
  }

  lemma MarkingSays(j: Job, how: How, story: set<(Point, How)>)
    requires Says(j, story) && NotYet(j, story) && JobStep(j, how).Some?
    requires j.stage.Marking?
    ensures SaysOn(j, how, story)
  {
  }

  lemma AnalysisSays(j: Job, how: How, story: set<(Point, How)>)
    requires Says(j, story) && NotYet(j, story) && JobStep(j, how).Some?
    requires j.stage.Analysing?
    ensures SaysOn(j, how, story)
  {
  }

  lemma SavingSays(j: Job, how: How, story: set<(Point, How)>)
    requires Says(j, story) && NotYet(j, story) && JobStep(j, how).Some?
    requires j.stage.Saving?
    ensures SaysOn(j, how, story)
  {
    match how {
      case Fine =>
      case Broken =>
      case _ =>
    }
  }

  lemma NotingSays(j: Job, how: How, story: set<(Point, How)>)
    requires Says(j, story) && NotYet(j, story) && JobStep(j, how).Some?
    requires j.stage.Failing?
    ensures SaysOn(j, how, story)
  {
  }

  lemma ClosingSays(j: Job, how: How, story: set<(Point, How)>)
    requires Says(j, story) && NotYet(j, story) && JobStep(j, how).Some?
    requires j.stage.Closing?
    ensures SaysOn(j, how, story)
  {
  }

  lemma StepSays(j: Job, how: How, story: set<(Point, How)>)
    requires Says(j, story) && NotYet(j, story) && JobStep(j, how).Some?
    ensures SaysOn(j, how, story)
  {
    hide Says, NotYet, SaysOn;
    match j.stage {
      case Opening => OpeningSays(j, how, story);
      case Marking => MarkingSays(j, how, story);
      case Analysing => AnalysisSays(j, how, story);
      case Saving(_) => SavingSays(j, how, story);
      case Failing => NotingSays(j, how, story);
      case Closing => ClosingSays(j, how, story);
      case _ => AdmissionSays(j, how, story);
    }
  }

  lemma NewJobSays(j: Job)
    requires j == Job(Inserting, None, false) || j == Job(Dropping, None, false)
    ensures Says(j, {}) && NotYet(j, {})
  {
  }

  /** A job that is not there yet has no story. */
  lemma {:induction false} NoStoryYet(max: nat, events: seq<Event>, i: nat)
    requires i >= |Run(max, events).jobs|
    ensures Story(max, events, i) == {}
  {
    hide JobStep;
    if events != [] {
      NoStoryYet(max, events[..|events| - 1], i);
    }
  }

  lemma {:induction false} StoryFits(max: nat, events: seq<Event>, i: nat)
    requires i < |Run(max, events).jobs|
    ensures Says(Run(max, events).jobs[i], Story(max, events, i))
    ensures NotYet(Run(max, events).jobs[i], Story(max, events, i))
  {
    hide JobStep, Says, NotYet, PointOf;
    if events != [] {
      var n := |events| - 1;
      var m := Run(max, events[..n]);
      if i >= |m.jobs| {
        NoStoryYet(max, events[..n], i);
        NewJobSays(Run(max, events).jobs[i]);
      } else {
        StoryFits(max, events[..n], i);
        if Step(m, events[n]).Some? && events[n].Resume? && events[n].job == i {
          StepSays(m.jobs[i], events[n].how, Story(max, events[..n], i));
        }
      }
    }
  }

  /**
   In every run: a row is `completed` exactly if the analysis succeeded and the
   result was saved, `skipped` exactly if there was no model to ask and that was
   saved, `failed` exactly if the analysis raised and that was saved or a failure
   was noted, and a failure is noted only after a status write that broke.
   */
  lemma StatusTellsTheStory(max: nat, events: seq<Event>, i: nat)
    requires i < |Run(max, events).jobs|
    ensures RowSays(Run(max, events).jobs[i].row, Story(max, events, i))
    ensures NotesFailures(Story(max, events, i))
  {
    hide Run, Story, RowSays, NotesFailures, NotYet;
    StoryFits(max, events, i);
  }

  /**
   The verdict is how the insertion ended, and a coroutine is cut off exactly by
   a cancellation, a session that does not open, or a failure that is not noted.
   */
  lemma VerdictTellsTheStory(max: nat, events: seq<Event>, i: nat)
    requires i < |Run(max, events).jobs|
    ensures VerdictSays(VerdictOn(Run(max, events).jobs[i]), Story(max, events, i))
    ensures CutSays(Run(max, events).jobs[i].cut, Story(max, events, i))
  {
    hide Run, Story, VerdictSays, CutSays, NotYet;
    StoryFits(max, events, i);
  }

  /**
   An alert is dropped exactly if, when it fires, the investigations in flight
   and the insertions ever cancelled make up the cap.
   */
  lemma DroppedExactlyWhenFull(max: nat, events: seq<Event>)
    ensures var jobs, after := Run(max, events).jobs, Run(max, events + [Arrive]).jobs;
            && |after| == |jobs| + 1 && after[..|jobs|] == jobs
            && (IsDropped(after[|jobs|]) <==> Count(jobs, InFlight) + Count(jobs, Leaked) == max)
            && (!IsDropped(after[|jobs|]) ==> after[|jobs|].stage.Inserting?)
  {
    hide Count, Run;
    RunKeepsInv(max, events);
    assert (events + [Arrive])[..|events|] == events;
    PlayOne(max, events + [Arrive]);
  }
}
