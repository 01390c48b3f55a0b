/** The engine's central invariant: every registered team is in exactly one
    place, either waiting in the global queue or playing in exactly one
    field's current match, and nothing unregistered is anywhere. Alongside it,
    roster ids and names stay unique, names stay trimmed and non-empty, field
    ids stay distinct, and results stay balanced. Every transition keeps it. */
module Conservation {
  import opened Base
  import opened Text
  import opened Queue
  import opened Fields
  import opened Roster
  import opened Modes
  import opened Clock
  import opened Engine

  /** Where the teams are: the queue plus both sides of every current match. */
  function Placed(s: State): multiset<TeamId> {
    multiset(s.queue) + MatchIds(s.fields)
  }

  predicate NamesValid(teams: seq<Team>) {
    && (forall i :: 0 <= i < |teams| ==> teams[i].name != [] && IsTrimmed(teams[i].name))
    && (forall i, j :: 0 <= i < j < |teams| ==> teams[i].name != teams[j].name)
  }

  /** The roster's own part of the invariant. */
  predicate RosterOk(teams: seq<Team>) {
    Distinct(RosterIds(teams)) && NamesValid(teams) && Balanced(teams)
  }

  predicate Inv(s: State) {
    && RosterOk(s.teams)
    && DistinctIds(s.fields)
    && Placed(s) == multiset(RosterIds(s.teams))
  }

  /** The conservation property itself: a registered team is placed exactly
      once, any other id nowhere. */
  lemma ExactlyOnePlace(s: State)
    requires Inv(s)
    ensures forall x :: Placed(s)[x] == if x in RosterIds(s.teams) then 1 else 0
  {
    forall x ensures Placed(s)[x] == if x in RosterIds(s.teams) then 1 else 0 {
      PlacedOnce(s, x);
    }
  }

  /** Consequences of conservation: no team waits twice, no waiting team is
      also playing, and no team plays two matches or against itself. */
  lemma NoDoubleBooking(s: State)
    requires Inv(s)
    ensures Distinct(s.queue)
    ensures forall x :: x in s.queue ==> x !in MatchIds(s.fields)
    ensures forall x :: MatchIds(s.fields)[x] <= 1
  {
    forall x | x in s.queue ensures multiset(s.queue)[x] == 1 && x !in MatchIds(s.fields) {
      PlacedOnce(s, x);
    }
    forall x ensures MatchIds(s.fields)[x] <= 1 {
      PlacedOnce(s, x);
    }
  }

  lemma PlacedOnce(s: State, x: TeamId)
    requires Inv(s)
    ensures Placed(s)[x] == if x in RosterIds(s.teams) then 1 else 0
    ensures Placed(s)[x] == multiset(s.queue)[x] + MatchIds(s.fields)[x]
  {
    var ids: seq<TeamId> := RosterIds(s.teams);
    if x in ids {
      assert multiset(ids)[x] == 1;
    } else {
      assert x !in multiset(ids);
    }
  }

  /** Under the invariant nobody waiting is playing, so `getNextAvailableTeams`
      is the whole queue. */
  lemma AvailableIsQueue(s: State)
    requires Inv(s)
    ensures NextAvailableTeams(s) == s.queue
  {
    NoDoubleBooking(s);
    WithoutAbsent(s.queue, Playing(s.fields));
  }

  lemma InitEstablishes()
    ensures Inv(Init())
  {
    var fs := InitialFields();
    assert MatchIds(fs) == multiset{} by {
      NoMatchesNoIds(fs);
    }
  }

  /** Registering a team under an unused id keeps the invariant: the one new
      id goes to the queue, and the new name is trimmed, non-empty and
      unused. */
  lemma AddTeamPreserves(s: State, name: string, id: TeamId)
    requires Inv(s) && id !in RosterIds(s.teams)
    ensures Inv(AddTeam(s, name, id))
  {
    var r := AddTeam(s, name, id);
    var n := Trim(name);
    if n != [] && !NameTaken(s.teams, n) {
      var t := Team(id, n, 0, 0, 0);
      assert r.teams == s.teams + [t];
      assert r.queue == s.queue + [id];
      RosterAppend(s.teams, t);
      PlacedAppend(s, r, id);
      assert multiset(RosterIds(r.teams)) == multiset(RosterIds(s.teams)) + multiset{id};
    }
  }

  /** Queueing one more team places it once more. */
  lemma PlacedAppend(s: State, r: State, id: TeamId)
    requires r.fields == s.fields && r.queue == s.queue + [id]
    ensures Placed(r) == Placed(s) + multiset{id}
  {
    assert multiset(r.queue) == multiset(s.queue) + multiset{id};
    forall x ensures Placed(r)[x] == (Placed(s) + multiset{id})[x] {
    }
  }

  /** Appending a new team with a fresh id, a fresh valid name and no results
      keeps the roster's own part of the invariant. */
  lemma RosterAppend(teams: seq<Team>, t: Team)
    requires RosterOk(teams)
    requires t.id !in RosterIds(teams)
    requires t.name != [] && IsTrimmed(t.name) && !NameTaken(teams, t.name)
    requires t.wins == 0 && t.losses == 0 && t.draws == 0
    ensures RosterIds(teams + [t]) == RosterIds(teams) + [t.id]
    ensures RosterOk(teams + [t])
  {
    var u := teams + [t];
    assert RosterIds(u) == RosterIds(teams) + [t.id];
    DistinctAppend(RosterIds(teams), t.id);
    BalancedAppend(teams, t);
    NamesAppend(teams, t);
  }

  lemma DistinctAppend(q: seq<TeamId>, id: TeamId)
    requires Distinct(q) && id !in q
    ensures Distinct(q + [id])
  {
    var u := q + [id];
    assert multiset(u) == multiset(q) + multiset{id};
    forall x | x in u ensures multiset(u)[x] == 1 {
      if x == id {
        assert x !in multiset(q);
      } else {
        assert x in q;
      }
    }
  }

  lemma NamesAppend(teams: seq<Team>, t: Team)
    requires NamesValid(teams)
    requires t.name != [] && IsTrimmed(t.name) && !NameTaken(teams, t.name)
    ensures NamesValid(teams + [t])
  {
    var u := teams + [t];
    forall i | 0 <= i < |u| ensures u[i].name != [] && IsTrimmed(u[i].name) {
      if i < |teams| { assert u[i] == teams[i]; }
    }
    forall i, j | 0 <= i < j < |u| ensures u[i].name != u[j].name {
      assert u[i] == teams[i];
      if j < |teams| { assert u[j] == teams[j]; }
    }
  }

  lemma ToggleFieldPreserves(s: State, fid: FieldId)
    requires Inv(s)
    ensures Inv(ToggleField(s, fid))
  {
    var r := ToggleField(s, fid);
    assert DistinctIds(r.fields) by {
      forall i, j | 0 <= i < j < |r.fields| ensures r.fields[i].id != r.fields[j].id {
        assert r.fields[i].id == s.fields[i].id && r.fields[j].id == s.fields[j].id;
      }
    }
  }

  /** Starting a match on an existing idle field keeps the invariant: the two
      teams leave the queue and arrive on the field. (The source does not
      check either condition; its UI offers the button only on idle fields.) */
  lemma StartMatchPreserves(s: State, fid: FieldId)
    requires Inv(s)
    requires FindField(s.fields, fid).Some? && MatchOn(s.fields, fid).None?
    ensures Inv(StartMatch(s, fid))
  {
    var r := StartMatch(s, fid);
    var avail := NextAvailableTeams(s);
    if |avail| >= 2 {
      AvailableIsQueue(s);
      NoDoubleBooking(s);
      var a, b := avail[0], avail[1];
      var m := Match(Entry(a, 0), Entry(b, 0));
      assert r.fields == SetMatch(s.fields, fid, Some(m));
      SetMatchOnIds(s.fields, fid, Some(m));
      assert MatchIds(r.fields) == MatchIds(s.fields) + multiset{a, b};
      DropTwo(s.queue, r.queue);
      MoveBetween(multiset(r.queue), MatchIds(r.fields), multiset(s.queue), MatchIds(s.fields), multiset{a, b});
      SetMatchKeepsIds(s.fields, fid, Some(m));
    } else {
      assert r == s;
    }
  }

  /** A queue of distinct ids that loses exactly its first two entries
      loses one copy of each. */
  lemma DropTwo(q: seq<TeamId>, rest: seq<TeamId>)
    requires Distinct(q) && |q| >= 2
    requires forall x :: multiset(rest)[x] == if x == q[0] || x == q[1] then 0 else multiset(q)[x]
    ensures multiset(rest) + multiset{q[0], q[1]} == multiset(q)
  {
    assert q == [q[0], q[1]] + q[2..];
    assert multiset(q)[q[0]] == 1;
    assert multiset{q[0], q[1]}[q[0]] <= 1;
    forall x ensures (multiset(rest) + multiset{q[0], q[1]})[x] == multiset(q)[x] {
    }
  }

  /** Replacing a match keeps every field's id. */
  lemma SetMatchKeepsIds(fs: seq<Field>, fid: FieldId, m: Option<Match>)
    requires DistinctIds(fs)
    ensures DistinctIds(SetMatch(fs, fid, m))
  {
    var r := SetMatch(fs, fid, m);
    forall i, j | 0 <= i < j < |r| ensures r[i].id != r[j].id {
      assert r[i].id == fs[i].id && r[j].id == fs[j].id;
    }
  }

  /** A goal changes a score, never who is where. */
  lemma ScoreGoalPreserves(s: State, fid: FieldId, side: Side)
    requires Inv(s)
    ensures Inv(ScoreGoal(s, fid, side).state)
  {
    var r := ScoreGoal(s, fid, side).state;
    if MatchOn(s.fields, fid).Some? && fid in s.timers && s.timers[fid] != 0 {
      var f := FindField(s.fields, fid).value;
      var m := AddGoal(f.current.value, side);
      assert r == s.(fields := SetMatch(s.fields, fid, Some(m)));
      ReplaceMatchPreserves(s, fid, m);
    }
  }

  /** Putting a match with the same two teams on a field (a new score, say)
      keeps the invariant. */
  lemma ReplaceMatchPreserves(s: State, fid: FieldId, m: Match)
    requires Inv(s) && FindField(s.fields, fid).Some?
    requires Occupants(Some(m)) == Occupants(MatchOn(s.fields, fid))
    ensures Inv(s.(fields := SetMatch(s.fields, fid, Some(m))))
  {
    SameTeamsIds(s.fields, fid, Some(m));
    SetMatchKeepsIds(s.fields, fid, Some(m));
  }

  /** Ending a match keeps the invariant: the two teams leave the field and
      re-enter the queue, once each, and the result credits one win and one
      loss or two draws. */
  lemma HandleMatchEndPreserves(s: State, fid: FieldId, result: Outcome)
    requires Inv(s)
    ensures Inv(HandleMatchEnd(s, fid, result))
  {
    var r := HandleMatchEnd(s, fid, result);
    if MatchOn(s.fields, fid).Some? {
      var m := MatchOn(s.fields, fid).value;
      var t1, t2 := m.team1.team, m.team2.team;
      EndMatchPlaced(s, fid, result);
      SetMatchKeepsIds(s.fields, fid, None);
      assert r.fields == SetMatch(s.fields, fid, None);
      EndMatchRoster(s, fid, result);
    }
  }

  /** Ending a match moves its two teams from the field to the queue. */
  lemma EndMatchPlaced(s: State, fid: FieldId, result: Outcome)
    requires DistinctIds(s.fields) && MatchOn(s.fields, fid).Some?
    ensures Placed(HandleMatchEnd(s, fid, result)) == Placed(s)
  {
    var r := HandleMatchEnd(s, fid, result);
    var m := MatchOn(s.fields, fid).value;
    var t1, t2 := m.team1.team, m.team2.team;
    SetMatchOnIds(s.fields, fid, None);
    assert r.fields == SetMatch(s.fields, fid, None);
    assert MatchIds(r.fields) + multiset{t1, t2} == MatchIds(s.fields);
    assert multiset(r.queue) == multiset(s.queue) + multiset{t1, t2};
    PlacedMove(r, s, multiset{t1, t2});
  }

  /** Teams that leave the fields for the queue stay placed. */
  lemma PlacedMove(r: State, s: State, moved: multiset<TeamId>)
    requires multiset(r.queue) == multiset(s.queue) + moved
    requires MatchIds(r.fields) + moved == MatchIds(s.fields)
    ensures Placed(r) == Placed(s)
  {
    forall x ensures Placed(r)[x] == Placed(s)[x] {
      assert (MatchIds(r.fields) + moved)[x] == MatchIds(s.fields)[x];
    }
  }

  /** The two sides of a match are different registered teams, so tallying
      the result keeps the roster's part of the invariant. */
  lemma EndMatchRoster(s: State, fid: FieldId, result: Outcome)
    requires Inv(s) && MatchOn(s.fields, fid).Some?
    ensures var m := MatchOn(s.fields, fid).value;
      RosterOk(Tally(s.teams, m.team1.team, m.team2.team, result))
  {
    var m := MatchOn(s.fields, fid).value;
    var t1, t2 := m.team1.team, m.team2.team;
    SetMatchOnIds(s.fields, fid, None);
    var rest := MatchIds(SetMatch(s.fields, fid, None));
    assert rest + multiset{t1, t2} == MatchIds(s.fields);
    NoDoubleBooking(s);
    assert MatchIds(s.fields)[t1] <= 1;
    assert multiset{t1, t2}[t1] <= 1 by {
      assert (rest + multiset{t1, t2})[t1] == MatchIds(s.fields)[t1];
    }
    PlacedOnce(s, t1);
    PlacedOnce(s, t2);
    assert t1 in RosterIds(s.teams) && t2 in RosterIds(s.teams);
    CountIsMultiplicity(s.teams, t1);
    CountIsMultiplicity(s.teams, t2);
    TallyKeepsBalance(s.teams, t1, t2, result);
    TallyKeepsNames(s.teams, t1, t2, result);
  }

  lemma TallyKeepsNames(teams: seq<Team>, id1: TeamId, id2: TeamId, result: Outcome)
    requires NamesValid(teams)
    ensures NamesValid(Tally(teams, id1, id2, result))
  {
    var r := Tally(teams, id1, id2, result);
    assert forall i :: 0 <= i < |r| ==> r[i].name == teams[i].name;
  }

  /** Reset leaves no team anywhere, which trivially satisfies the
      invariant. */
  lemma ResetEstablishes(s: State)
    requires DistinctIds(s.fields)
    ensures Inv(Reset(s))
  {
    var r := Reset(s);
    assert DistinctIds(r.fields) by {
      forall i, j | 0 <= i < j < |r.fields| ensures r.fields[i].id != r.fields[j].id {
        assert r.fields[i].id == s.fields[i].id && r.fields[j].id == s.fields[j].id;
      }
    }
  }

  /** Reordering the queue moves no team elsewhere. */
  lemma QueueReorderPreserves(s: State, picks: seq<nat>, id: TeamId, dir: Direction)
    requires Inv(s)
    ensures Inv(ShuffleQueue(s, picks))
    ensures Inv(MoveTeamInQueue(s, id, dir))
  {
  }

  /** The clock touches only the timers. */
  lemma TickPreserves(s: State)
    requires Inv(s)
    ensures Inv(TickState(s).0)
  {
  }
}
