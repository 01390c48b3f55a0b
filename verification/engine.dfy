/** The rotation engine of `src/App.js` as a state machine: the component's
    state variables become one immutable record and each event handler a
    function from state to state. */
module Engine {
  import opened Base
  import opened Text
  import opened Queue
  import opened Fields
  import opened Roster
  import opened Modes
  import opened Clock

  /** The settings staff edit: match length in minutes, the mode selector and
      the team count at which overflow takes effect. */
  datatype Config = Config(duration: int, selector: Mode, threshold: int)

  /** `teams`, `globalQueue`, `fields` and `timers` (remaining seconds by
      field id; a missing key is `undefined`), plus the settings. */
  datatype State = State(
    teams: seq<Team>,
    queue: seq<TeamId>,
    fields: seq<Field>,
    timers: map<FieldId, int>,
    config: Config)

  function InitialFields(): seq<Field> {
    [ Field(1, "Field 1", true, None),
      Field(2, "Field 2", true, None),
      Field(3, "Field 3", true, None) ]
  }

  /** The component's initial state: no teams, three idle active fields,
      5-minute matches, winner stays, overflow threshold 6. */
  function Init(): State {
    State([], [], InitialFields(), map[], Config(5, WinnerStays, 6))
  }

  /** The mode in force, recomputed from the live team count. */
  function GameMode(s: State): Mode {
    CurrentGameMode(s.config.selector, |s.teams|, s.config.threshold)
  }

  /** `addTeam` with `name` the text typed and `id` the `Date.now()` value.
      The name is trimmed; an empty or already registered name changes
      nothing. Otherwise the new team, with no results yet, is appended both
      to the roster and to the back of the queue, and nothing else changes. */
  function AddTeam(s: State, name: string, id: TeamId): (r: State)
    ensures Trim(name) == [] || NameTaken(s.teams, Trim(name)) ==> r == s
    ensures Trim(name) != [] && !NameTaken(s.teams, Trim(name)) ==>
      && |r.teams| == |s.teams| + 1 && r.teams[..|s.teams|] == s.teams
      && r.teams[|s.teams|] == Team(id, Trim(name), 0, 0, 0)
      && |r.queue| == |s.queue| + 1 && r.queue[..|s.queue|] == s.queue && r.queue[|s.queue|] == id
      && r.fields == s.fields && r.timers == s.timers && r.config == s.config
  {
    var n := Trim(name);
    if n != [] && !NameTaken(s.teams, n) then
      var t := Team(id, n, 0, 0, 0);
      assert (s.teams + [t])[..|s.teams|] == s.teams;
      assert (s.queue + [id])[..|s.queue|] == s.queue;
      s.(teams := s.teams + [t], queue := s.queue + [id])
    else s
  }

  /** An id no registered team carries, standing in for `Date.now()`. */
  function FreshId(teams: seq<Team>): (id: TeamId)
    ensures id !in RosterIds(teams)
    ensures forall i :: 0 <= i < |teams| ==> teams[i].id < id
  {
    if teams == [] then 0
    else
      var rest := FreshId(teams[1..]);
      var id := if teams[0].id + 1 > rest then teams[0].id + 1 else rest;
      assert forall i :: 1 <= i < |teams| ==> teams[i] == teams[1..][i - 1];
      id
  }

  /** `toggleField`: only the one field's `active` flag flips. */
  function ToggleField(s: State, fid: FieldId): (r: State)
    ensures r.teams == s.teams && r.queue == s.queue && r.timers == s.timers && r.config == s.config
    ensures r.fields == ToggleActive(s.fields, fid)
    ensures MatchIds(r.fields) == MatchIds(s.fields)
  {
    var fs := ToggleActive(s.fields, fid);
    SameMatchesSameIds(fs, s.fields);
    s.(fields := fs)
  }

  /** `getNextAvailableTeams`: the queue, in order, minus every team that is
      `team1` or `team2` of some field's current match. */
  function NextAvailableTeams(s: State): (r: seq<TeamId>)
    ensures IsSubsequence(r, s.queue)
    ensures forall x :: x in r <==> x in s.queue && x !in MatchIds(s.fields)
  {
    Without(s.queue, Playing(s.fields))
  }

  /** `startMatch`. With fewer than two available teams nothing changes.
      Otherwise the first two available teams become `team1` and `team2` of
      the field, each with no goals; exactly those two ids leave the queue,
      the rest keeping their order; the field's clock is set to the match
      length in seconds; and the roster, the settings and every other field
      stay as they were. The started field keeps its id, name and active
      flag, and an id no field carries leaves the fields as they were. */
  function StartMatch(s: State, fid: FieldId): (r: State)
    ensures |NextAvailableTeams(s)| < 2 ==> r == s
    ensures var avail := NextAvailableTeams(s);
      |avail| >= 2 ==>
        && r.teams == s.teams && r.config == s.config
        && (FindField(s.fields, fid).Some? ==>
              MatchOn(r.fields, fid) == Some(Match(Entry(avail[0], 0), Entry(avail[1], 0))))
        && (FindField(s.fields, fid).Some? ==>
              FindField(r.fields, fid)
              == Some(FindField(s.fields, fid).value.(current := Some(Match(Entry(avail[0], 0), Entry(avail[1], 0))))))
        && (FindField(s.fields, fid).None? ==> r.fields == s.fields)
        && (forall k :: k != fid ==> FindField(r.fields, k) == FindField(s.fields, k))
        && IsSubsequence(r.queue, s.queue)
        && (forall x :: multiset(r.queue)[x]
                        == if x == avail[0] || x == avail[1] then 0 else multiset(s.queue)[x])
        && r.timers == s.timers[fid := s.config.duration * 60]
  {
    var avail := NextAvailableTeams(s);
    if |avail| >= 2 then
      var m := Match(Entry(avail[0], 0), Entry(avail[1], 0));
      var fs := SetMatch(s.fields, fid, Some(m));
      FindFieldSetMatch(s.fields, fid, Some(m), fid);
      assert forall k :: k != fid ==> FindField(fs, k) == FindField(s.fields, k) by {
        forall k | k != fid {
          FindFieldSetMatch(s.fields, fid, Some(m), k);
        }
      }
      assert FindField(s.fields, fid).None? ==> fs == s.fields by {
        if FindField(s.fields, fid).None? {
          SetMatchAbsent(s.fields, fid, Some(m));
        }
      }
      var q := Without(s.queue, {avail[0], avail[1]});
      WithoutPair(s.queue, avail[0], avail[1]);
      s.(fields := fs, queue := q, timers := s.timers[fid := s.config.duration * 60])
    else s
  }

  /** A match with one more goal for `side`. */
  function AddGoal(m: Match, side: Side): (r: Match)
    ensures r.team1.team == m.team1.team && r.team2.team == m.team2.team
    ensures Score(r, side) == Score(m, side) + 1
    ensures Score(r, side.Other()) == Score(m, side.Other())
  {
    if side == Team1 then m.(team1 := m.team1.(score := m.team1.score + 1))
    else m.(team2 := m.team2.(score := m.team2.score + 1))
  }

  function Score(m: Match, side: Side): nat {
    if side == Team1 then m.team1.score else m.team2.score
  }

  /** The state after a goal, and the result to end the match with when
      the goal decides it. */
  datatype GoalResult = GoalResult(state: State, ends: Option<Outcome>)

  /** `scoreGoal`. Ignored (state unchanged, nothing ends) when the field has
      no match or its timer is missing or zero. Otherwise the scoring side's
      goals go up by one, nothing else changes, and the match is to end as a
      win for that side exactly when it has reached two goals. */
  function ScoreGoal(s: State, fid: FieldId, side: Side): (r: GoalResult)
    ensures MatchOn(s.fields, fid).None? || fid !in s.timers || s.timers[fid] == 0 ==>
      r == GoalResult(s, None)
    ensures MatchOn(s.fields, fid).Some? && fid in s.timers && s.timers[fid] != 0 ==>
      var m := MatchOn(s.fields, fid).value;
      && r.state.teams == s.teams && r.state.queue == s.queue
      && r.state.timers == s.timers && r.state.config == s.config
      && MatchOn(r.state.fields, fid).Some?
      && var m' := MatchOn(r.state.fields, fid).value;
      && FindField(r.state.fields, fid) == Some(FindField(s.fields, fid).value.(current := Some(m')))
      && (forall k :: k != fid ==> FindField(r.state.fields, k) == FindField(s.fields, k))
      && m'.team1.team == m.team1.team && m'.team2.team == m.team2.team
      && Score(m', side) == Score(m, side) + 1
      && Score(m', side.Other()) == Score(m, side.Other())
      && (r.ends.Some? <==> Score(m', side) >= 2)
      && (r.ends.Some? ==> r.ends.value == Won(side))
  {
    match FindField(s.fields, fid)
    case None => GoalResult(s, None)
    case Some(f) =>
      if f.current.None? || fid !in s.timers || s.timers[fid] == 0 then GoalResult(s, None)
      else
        var m := AddGoal(f.current.value, side);
        var fs := SetMatch(s.fields, fid, Some(m));
        FindFieldSetMatch(s.fields, fid, Some(m), fid);
        assert forall k :: k != fid ==> FindField(fs, k) == FindField(s.fields, k) by {
          forall k | k != fid {
            FindFieldSetMatch(s.fields, fid, Some(m), k);
          }
        }
        GoalResult(s.(fields := fs), if Score(m, side) >= 2 then Some(Won(side)) else None)
  }

  /** `handleMatchEnd`. A field without a current match is left alone.
      Otherwise both teams' tallies are credited, they re-enter the queue as
      the mode in force dictates (so the queue grows by exactly two), the
      field is cleared and its timer set to zero; the roster keeps its ids and
      the field keeps its id, name and active flag, and the other fields and
      timers are untouched. */
  function HandleMatchEnd(s: State, fid: FieldId, result: Outcome): (r: State)
    ensures MatchOn(s.fields, fid).None? ==> r == s
    ensures MatchOn(s.fields, fid).Some? ==>
      var m := MatchOn(s.fields, fid).value;
      var t1 := m.team1.team;
      var t2 := m.team2.team;
      && r.teams == Tally(s.teams, t1, t2, result)
      && r.queue == Requeue(s.queue, t1, t2, GameMode(s), result)
      && |r.queue| == |s.queue| + 2
      && MatchOn(r.fields, fid).None?
      && FindField(r.fields, fid).Some?
      && (forall k :: k != fid ==> FindField(r.fields, k) == FindField(s.fields, k))
      && FindField(r.fields, fid) == Some(FindField(s.fields, fid).value.(current := None))
      && fid in r.timers && r.timers[fid] == 0
      && r.timers == s.timers[fid := 0]
      && r.config == s.config
  {
    match FindField(s.fields, fid)
    case None => s
    case Some(f) =>
      match f.current
      case None => s
      case Some(m) =>
        var t1 := m.team1.team;
        var t2 := m.team2.team;
        var fs := SetMatch(s.fields, fid, None);
        FindFieldSetMatch(s.fields, fid, None, fid);
        assert forall k :: k != fid ==> FindField(fs, k) == FindField(s.fields, k) by {
          forall k | k != fid {
            FindFieldSetMatch(s.fields, fid, None, k);
          }
        }
        s.(teams := Tally(s.teams, t1, t2, result),
           queue := Requeue(s.queue, t1, t2, GameMode(s), result),
           fields := fs,
           timers := s.timers[fid := 0])
  }

  /** `resetApp`: no teams, an empty queue, no timers, and every field idle
      while keeping its id, name and active flag. */
  function Reset(s: State): (r: State)
    ensures r.teams == [] && r.queue == [] && r.timers == map[] && r.config == s.config
    ensures |r.fields| == |s.fields|
    ensures forall i :: 0 <= i < |s.fields| ==> r.fields[i] == s.fields[i].(current := None)
    ensures MatchIds(r.fields) == multiset{}
  {
    var fs := seq(|s.fields|, i requires 0 <= i < |s.fields| => s.fields[i].(current := None));
    NoMatchesNoIds(fs);
    State([], [], fs, map[], s.config)
  }

  lemma {:induction false} NoMatchesNoIds(fs: seq<Field>)
    requires forall i :: 0 <= i < |fs| ==> fs[i].current.None?
    ensures MatchIds(fs) == multiset{}
  {
    if fs != [] {
      NoMatchesNoIds(fs[1..]);
    }
  }

  /** `shuffleQueue`, `picks` standing for the random comparator's choices:
      the queue is rearranged and nothing else changes. */
  function ShuffleQueue(s: State, picks: seq<nat>): (r: State)
    ensures r == s.(queue := r.queue)
    ensures multiset(r.queue) == multiset(s.queue)
  {
    s.(queue := Shuffle(s.queue, picks))
  }

  /** `moveTeamInQueue`: only the queue changes, and only by `MoveTeam`'s
      swap of two neighbours. */
  function MoveTeamInQueue(s: State, id: TeamId, dir: Direction): (r: State)
    ensures r == s.(queue := r.queue)
    ensures r.queue == MoveTeam(s.queue, id, dir)
    ensures multiset(r.queue) == multiset(s.queue)
  {
    s.(queue := MoveTeam(s.queue, id, dir))
  }

  /** One second of the timer effect: the new timers and the fields whose
      match the source then ends as a draw. */
  function TickState(s: State): (r: (State, seq<FieldId>))
    ensures r.0 == s.(timers := r.0.timers)
    ensures r.0.timers == Tick(s.fields, s.timers).timers && r.1 == Tick(s.fields, s.timers).expired
    ensures r.0.timers.Keys == s.timers.Keys
  {
    var t := Tick(s.fields, s.timers);
    (s.(timers := t.timers), t.expired)
  }
}
