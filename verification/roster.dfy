/** The registered teams and their cumulative results. */
module Roster {
  import opened Base

  datatype Team = Team(id: TeamId, name: string, wins: nat, losses: nat, draws: nat)

  /** The two sides of a match, `'team1'` and `'team2'` in the source. */
  datatype Side = Team1 | Team2 {
    function Other(): Side {
      if this == Team1 then Team2 else Team1
    }
  }

  /** The result staff declare for a match: one side won, or a draw. */
  datatype Outcome = Won(winner: Side) | Draw

  /** The ids of the roster, in registration order. */
  function RosterIds(teams: seq<Team>): (r: seq<TeamId>)
    ensures |r| == |teams|
    ensures forall i :: 0 <= i < |teams| ==> r[i] == teams[i].id
  {
    if teams == [] then [] else [teams[0].id] + RosterIds(teams[1..])
  }

  /** `teams.find(t => t.name === name)` finds something. */
  predicate NameTaken(teams: seq<Team>, name: string) {
    exists i :: 0 <= i < |teams| && teams[i].name == name
  }

  /** Games a team has finished: every result adds exactly one. */
  function Played(t: Team): nat {
    t.wins + t.losses + t.draws
  }

  /** Which side of the match between `id1` and `id2` the team `id` played;
      `team1` is checked first, as in the source. */
  function SideOf(id: TeamId, id1: TeamId, id2: TeamId): Option<Side> {
    if id == id1 then Some(Team1) else if id == id2 then Some(Team2) else None
  }

  /** The tally update one team receives when the match `id1` vs `id2` ends
      with `result`: a win when its side won, a loss when the other side won,
      a draw on a draw, and nothing when it did not play. */
  function Credit(t: Team, id1: TeamId, id2: TeamId, result: Outcome): (r: Team)
    ensures r.id == t.id && r.name == t.name
    ensures Played(r) == Played(t) + (if SideOf(t.id, id1, id2).Some? then 1 else 0)
    ensures r.wins == t.wins + (if result.Won? && SideOf(t.id, id1, id2) == Some(result.winner) then 1 else 0)
    ensures r.losses == t.losses + (if result.Won? && SideOf(t.id, id1, id2) == Some(result.winner.Other()) then 1 else 0)
    ensures r.draws == t.draws + (if result.Draw? && SideOf(t.id, id1, id2).Some? then 1 else 0)
  {
    if t.id == id1 then
      if result == Won(Team1) then t.(wins := t.wins + 1)
      else if result == Won(Team2) then t.(losses := t.losses + 1)
      else t.(draws := t.draws + 1)
    else if t.id == id2 then
      if result == Won(Team2) then t.(wins := t.wins + 1)
      else if result == Won(Team1) then t.(losses := t.losses + 1)
      else t.(draws := t.draws + 1)
    else t
  }

  /** The roster after a match: every team credited, order and ids kept. */
  function Tally(teams: seq<Team>, id1: TeamId, id2: TeamId, result: Outcome): (r: seq<Team>)
    ensures |r| == |teams|
    ensures forall i :: 0 <= i < |teams| ==> r[i] == Credit(teams[i], id1, id2, result)
    ensures RosterIds(r) == RosterIds(teams)
  {
    if teams == [] then []
    else [Credit(teams[0], id1, id2, result)] + Tally(teams[1..], id1, id2, result)
  }

  function TotalWins(teams: seq<Team>): nat {
    if teams == [] then 0 else teams[0].wins + TotalWins(teams[1..])
  }

  function TotalLosses(teams: seq<Team>): nat {
    if teams == [] then 0 else teams[0].losses + TotalLosses(teams[1..])
  }

  function TotalDraws(teams: seq<Team>): nat {
    if teams == [] then 0 else teams[0].draws + TotalDraws(teams[1..])
  }

  /** Every recorded win has a matching loss and draws come in pairs: what
      a roster built only by `addTeam` and finished matches looks like. */
  predicate Balanced(teams: seq<Team>) {
    TotalWins(teams) == TotalLosses(teams) && TotalDraws(teams) % 2 == 0
  }

  /** How many times `id` is registered. */
  function Count(teams: seq<Team>, id: TeamId): nat {
    if teams == [] then 0 else (if teams[0].id == id then 1 else 0) + Count(teams[1..], id)
  }

  lemma {:induction false} CountIsMultiplicity(teams: seq<Team>, id: TeamId)
    ensures Count(teams, id) == multiset(RosterIds(teams))[id]
  {
    if teams != [] {
      assert RosterIds(teams) == [teams[0].id] + RosterIds(teams[1..]);
      CountIsMultiplicity(teams[1..], id);
    }
  }

  /** The wins a result adds to a roster where the two sides are registered
      `c1` and `c2` times; `LossGain` and `DrawGain` likewise. */
  function WinGain(result: Outcome, c1: nat, c2: nat): nat {
    match result
    case Won(Team1) => c1
    case Won(Team2) => c2
    case Draw => 0
  }

  function LossGain(result: Outcome, c1: nat, c2: nat): nat {
    match result
    case Won(Team1) => c2
    case Won(Team2) => c1
    case Draw => 0
  }

  function DrawGain(result: Outcome, c1: nat, c2: nat): nat {
    if result == Draw then c1 + c2 else 0
  }

  lemma {:induction false} TallyWins(teams: seq<Team>, id1: TeamId, id2: TeamId, result: Outcome)
    requires id1 != id2
    ensures TotalWins(Tally(teams, id1, id2, result))
            == TotalWins(teams) + WinGain(result, Count(teams, id1), Count(teams, id2))
  {
    if teams != [] {
      TallyWins(teams[1..], id1, id2, result);
      assert Tally(teams, id1, id2, result)[1..] == Tally(teams[1..], id1, id2, result);
    }
  }

  lemma {:induction false} TallyLosses(teams: seq<Team>, id1: TeamId, id2: TeamId, result: Outcome)
    requires id1 != id2
    ensures TotalLosses(Tally(teams, id1, id2, result))
            == TotalLosses(teams) + LossGain(result, Count(teams, id1), Count(teams, id2))
  {
    if teams != [] {
      TallyLosses(teams[1..], id1, id2, result);
      assert Tally(teams, id1, id2, result)[1..] == Tally(teams[1..], id1, id2, result);
    }
  }

  lemma {:induction false} TallyDraws(teams: seq<Team>, id1: TeamId, id2: TeamId, result: Outcome)
    requires id1 != id2
    ensures TotalDraws(Tally(teams, id1, id2, result))
            == TotalDraws(teams) + DrawGain(result, Count(teams, id1), Count(teams, id2))
  {
    if teams != [] {
      TallyDraws(teams[1..], id1, id2, result);
      assert Tally(teams, id1, id2, result)[1..] == Tally(teams[1..], id1, id2, result);
    }
  }

  /** A finished match between two distinct teams registered once each keeps
      the roster balanced: one win and one loss, or two draws. */
  lemma TallyKeepsBalance(teams: seq<Team>, id1: TeamId, id2: TeamId, result: Outcome)
    requires Balanced(teams) && id1 != id2
    requires Count(teams, id1) == 1 && Count(teams, id2) == 1
    ensures Balanced(Tally(teams, id1, id2, result))
  {
    var r := Tally(teams, id1, id2, result);
    TallyWins(teams, id1, id2, result);
    TallyLosses(teams, id1, id2, result);
    TallyDraws(teams, id1, id2, result);
    assert TotalWins(r) == TotalLosses(r);
    if result == Draw {
      EvenPlusTwo(TotalDraws(teams));
    } else {
      assert TotalDraws(r) == TotalDraws(teams);
    }
  }

  lemma EvenPlusTwo(d: nat)
    requires d % 2 == 0
    ensures (d + 2) % 2 == 0
  {
  }

  /** A newcomer with as many wins as losses and an even number of draws
      keeps the table balanced. */
  lemma BalancedAppend(teams: seq<Team>, t: Team)
    requires Balanced(teams) && t.wins == t.losses && t.draws % 2 == 0
    ensures Balanced(teams + [t])
  {
    AppendTotals(teams, t);
    var d := TotalDraws(teams);
    assert d + t.draws == 2 * (d / 2 + t.draws / 2);
  }

  lemma {:induction false} AppendTotals(teams: seq<Team>, t: Team)
    ensures TotalWins(teams + [t]) == TotalWins(teams) + t.wins
    ensures TotalLosses(teams + [t]) == TotalLosses(teams) + t.losses
    ensures TotalDraws(teams + [t]) == TotalDraws(teams) + t.draws
  {
    if teams != [] {
      assert (teams + [t])[1..] == teams[1..] + [t];
      AppendTotals(teams[1..], t);
    } else {
      assert [t][1..] == [];
    }
  }
}
