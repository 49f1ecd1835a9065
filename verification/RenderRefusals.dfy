/** What a run that fails says: the reason is that of the first event that no tree goes on with. */
module RenderRefusals {
  import opened Wrappers
  import opened Renderer
  import opened RenderProofs
  import opened RenderTheorems

  /** Why an event cannot come where it comes, by the containers that are open and not by their markers. */
  function Refusal(b: Build, event: Event): Reason {
    if b.Finished? then MoreAfterRoot
    else
      match event
      case Key(_) => KeyWhereValueDue
      case ArrayEnd => ArrayNotOpen
      case ObjectEnd =>
        if b.frames != [] && b.frames[|b.frames| - 1].ObjFrame? then ObjectEndsAfterKey else ObjectNotOpen
      case _ => ValueWhereKeyDue
  }

  lemma TopOf(b: Build)
    ensures Top(Markers(b)) == if b.Finished? then Some(RootDone) else if b.frames == [] then None
                               else Some(MarkerOf(b.frames[|b.frames| - 1], true))
  {
    hide MarkerOf;
  }

  lemma StepRefusal(b: Build, event: Event)
    requires Valid(b) && BuildStep(b, event) == None
    ensures Step(Markers(b), event) == Fail(Refusal(b, event))
  {
    hide Markers, Top, Closed, Ended, Done, Opened, Lead, Tail, AddValue, Valid;
    TopOf(b);
  }

  lemma {:induction false} StepsRefusal(b: Build, events: seq<Event>)
    requires Valid(b)
    ensures var p := BuildRun(b, events);
            && (p.consumed < |events| ==>
                  Steps(Markers(b), events).status == Fail(Refusal(p.build, events[p.consumed])))
            && (p.consumed == |events| ==> Steps(Markers(b), events).status == Ok(Markers(p.build)))
    decreases |events|
  {
    hide Markers, Pieces, BuildEvents, BuildStep, Step, Flat, Refusal, Valid;
    if events != [] {
      StepSimulates(b, events[0]);
      match BuildStep(b, events[0])
      case None => StepRefusal(b, events[0]);
      case Some(next) => StepsRefusal(next, events[1..]);
    }
  }

  lemma FinishOf(b: Build)
    requires Valid(b)
    ensures Finish(Markers(b)) == if b.Finished? then Ok([]) else if b.frames == [] then Fail(NoValue)
                                  else Fail(EndedInside)
  {
    hide Markers, Top;
    TopOf(b);
  }

  /**
    How a whole run ends. The events are read as the construction of a tree as far as they go; the first one
    that no tree goes on with gives the reason, and if there is none the run fails only for want of an end.
   */
  lemma RunEnds(events: seq<Event>)
    ensures var p := BuildRun(START, events);
            Render(events).status
            == if p.consumed < |events| then Fail(Refusal(p.build, events[p.consumed]))
               else if p.build.Finished? then Ok(()) else if p.build.frames == [] then Fail(NoValue)
               else Fail(EndedInside)
  {
    hide Steps, Finish, Refusal, Markers;
    StartFacts();
    StepsRefusal(START, events);
    FinishOf(BuildRun(START, events).build);
  }
}
