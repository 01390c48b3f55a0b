/** The engine driven the way the screen drives it: a run of staff actions
    and clock seconds from the initial state, and what the next match on a
    field turns out to be once one ends. */
module Scenarios {
  import opened Base
  import opened Queue
  import opened Fields
  import opened Roster
  import opened Modes
  import opened Clock
  import opened Engine
  import opened Conservation

  /** What can happen to the app: a button pressed by staff, or one second
      of the clock. */
  datatype Event =
    | Add(name: string)
    | Toggle(fid: FieldId)
    | Start(fid: FieldId)
    | Goal(fid: FieldId, side: Side)
    | End(fid: FieldId, result: Outcome)
    | ResetAll
    | ShuffleAll(picks: seq<nat>)
    | Move(id: TeamId, dir: Direction)
    | Second

  /** Ends, as draws, the matches on the fields whose clock ran out, in the
      order the clock reported them. */
  function EndAsDraws(s: State, fids: seq<FieldId>): State
    decreases |fids|
  {
    if fids == [] then s else EndAsDraws(HandleMatchEnd(s, fids[0], Draw), fids[1..])
  }

  /** One event. A new team takes an id no team has; the Start button is on
      screen only for an existing idle field; a deciding goal is followed by
      the end of its match; expired clocks end their matches as draws. */
  function Step(s: State, e: Event): State {
    match e
    case Add(name) => AddTeam(s, name, FreshId(s.teams))
    case Toggle(fid) => ToggleField(s, fid)
    case Start(fid) => StartIfIdle(s, fid)
    case Goal(fid, side) => GoalThenEnd(s, fid, side)
    case End(fid, result) => HandleMatchEnd(s, fid, result)
    case ResetAll => Reset(s)
    case ShuffleAll(picks) => ShuffleQueue(s, picks)
    case Move(id, dir) => MoveTeamInQueue(s, id, dir)
    case Second => SecondThenDraws(s)
  }

  function StartIfIdle(s: State, fid: FieldId): State {
    if FindField(s.fields, fid).Some? && MatchOn(s.fields, fid).None? then StartMatch(s, fid) else s
  }

  function GoalThenEnd(s: State, fid: FieldId, side: Side): State {
    var g := ScoreGoal(s, fid, side);
    if g.ends.Some? then HandleMatchEnd(g.state, fid, g.ends.value) else g.state
  }

  function SecondThenDraws(s: State): State {
    var t := TickState(s);
    EndAsDraws(t.0, t.1)
  }

  function Run(s: State, events: seq<Event>): State
    decreases |events|
  {
    if events == [] then s else Run(Step(s, events[0]), events[1..])
  }

  lemma {:induction false} EndAsDrawsPreserves(s: State, fids: seq<FieldId>)
    requires Inv(s)
    ensures Inv(EndAsDraws(s, fids))
    decreases |fids|
  {
    if fids != [] {
      HandleMatchEndPreserves(s, fids[0], Draw);
      EndAsDrawsPreserves(HandleMatchEnd(s, fids[0], Draw), fids[1..]);
    }
  }

  /** Every event keeps the invariant. */
  lemma StepPreserves(s: State, e: Event)
    requires Inv(s)
    ensures Inv(Step(s, e))
  {
    match e
    case Add(name) => AddTeamPreserves(s, name, FreshId(s.teams));
    case Toggle(fid) => ToggleFieldPreserves(s, fid);
    case Start(fid) => StartIfIdlePreserves(s, fid);
    case Goal(fid, side) => GoalThenEndPreserves(s, fid, side);
    case End(fid, result) => HandleMatchEndPreserves(s, fid, result);
    case ResetAll => ResetEstablishes(s);
    case ShuffleAll(picks) => QueueReorderPreserves(s, picks, 0, Up);
    case Move(id, dir) => QueueReorderPreserves(s, [], id, dir);
    case Second => SecondThenDrawsPreserves(s);
  }

  lemma StartIfIdlePreserves(s: State, fid: FieldId)
    requires Inv(s)
    ensures Inv(StartIfIdle(s, fid))
  {
    if FindField(s.fields, fid).Some? && MatchOn(s.fields, fid).None? {
      StartMatchPreserves(s, fid);
    }
  }

  lemma GoalThenEndPreserves(s: State, fid: FieldId, side: Side)
    requires Inv(s)
    ensures Inv(GoalThenEnd(s, fid, side))
  {
    var g := ScoreGoal(s, fid, side);
    ScoreGoalPreserves(s, fid, side);
    if g.ends.Some? {
      HandleMatchEndPreserves(g.state, fid, g.ends.value);
    }
  }

  lemma SecondThenDrawsPreserves(s: State)
    requires Inv(s)
    ensures Inv(SecondThenDraws(s))
  {
    TickPreserves(s);
    var t := TickState(s);
    EndAsDrawsPreserves(t.0, t.1);
  }

  /** Whatever staff do, and however long the clocks run, every registered
      team is in exactly one place: waiting once in the queue or playing on
      exactly one field. */
  lemma {:induction false} RunPreserves(s: State, events: seq<Event>)
    requires Inv(s)
    ensures Inv(Run(s, events))
    ensures forall x :: Placed(Run(s, events))[x]
                        == if x in RosterIds(Run(s, events).teams) then 1 else 0
    decreases |events|
  {
    if events == [] {
      ExactlyOnePlace(s);
    } else {
      StepPreserves(s, events[0]);
      RunPreserves(Step(s, events[0]), events[1..]);
    }
  }

  lemma FromStart(events: seq<Event>)
    ensures Inv(Run(Init(), events))
  {
    InitEstablishes();
    RunPreserves(Init(), events);
  }

  /** Winner stays: once a match ends and the same field is started again,
      the team that earned the stay (the winner, or the challenger on a draw)
      defends, against the team that waited longest, or against the team it
      just played when nobody else was waiting. */
  lemma WinnerStaysRematch(s: State, fid: FieldId, result: Outcome)
    requires Inv(s) && MatchOn(s.fields, fid).Some? && GameMode(s) == WinnerStays
    ensures var m := MatchOn(s.fields, fid).value;
      var w := Winner(result, m.team1.team, m.team2.team);
      var l := Loser(result, m.team1.team, m.team2.team);
      var e := HandleMatchEnd(s, fid, result);
      MatchOn(StartMatch(e, fid).fields, fid)
        == Some(Match(Entry(w, 0), Entry(if s.queue == [] then l else s.queue[0], 0)))
  {
    var m := MatchOn(s.fields, fid).value;
    var e := HandleMatchEnd(s, fid, result);
    HandleMatchEndPreserves(s, fid, result);
    RequeueFront(s.queue, m.team1.team, m.team2.team, result);
    NextMatch(e, fid);
  }

  /** Under the invariant, starting an existing field takes the first two
      teams of the queue. */
  lemma NextMatch(s: State, fid: FieldId)
    requires Inv(s) && FindField(s.fields, fid).Some? && |s.queue| >= 2
    ensures MatchOn(StartMatch(s, fid).fields, fid)
            == Some(Match(Entry(s.queue[0], 0), Entry(s.queue[1], 0)))
  {
    AvailableIsQueue(s);
  }

  /** Overflow: the two teams of a finished match go behind everyone
      waiting, so the next match on the field takes the two longest waiting
      teams, with the finished teams filling in only when fewer than two
      were waiting. */
  lemma OverflowNextMatch(s: State, fid: FieldId, result: Outcome)
    requires Inv(s) && MatchOn(s.fields, fid).Some? && GameMode(s) == Overflow
    ensures var m := MatchOn(s.fields, fid).value;
      var next := s.queue + [m.team1.team, m.team2.team];
      var e := HandleMatchEnd(s, fid, result);
      MatchOn(StartMatch(e, fid).fields, fid) == Some(Match(Entry(next[0], 0), Entry(next[1], 0)))
  {
    var m := MatchOn(s.fields, fid).value;
    var e := HandleMatchEnd(s, fid, result);
    HandleMatchEndPreserves(s, fid, result);
    var q := s.queue;
    assert e.queue == q + [m.team1.team, m.team2.team] by {
      assert e.queue[..|q|] == q;
    }
    NextMatch(e, fid);
  }

  /** A fresh match on a running clock is decided by the second goal of the
      same side, not the first. */
  lemma SecondGoalDecides(s: State, fid: FieldId, side: Side)
    requires MatchOn(s.fields, fid).Some? && Score(MatchOn(s.fields, fid).value, side) == 0
    requires fid in s.timers && s.timers[fid] != 0
    ensures var g1 := ScoreGoal(s, fid, side);
      var g2 := ScoreGoal(g1.state, fid, side);
      g1.ends == None && g2.ends == Some(Won(side))
  {
    var g1 := ScoreGoal(s, fid, side);
    assert Score(MatchOn(g1.state.fields, fid).value, side) == 1;
  }
}
