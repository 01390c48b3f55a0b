/** The two rotation modes and where each puts the teams of a finished
    match back into the global queue. */
module Modes {
  import opened Base
  import opened Roster

  datatype Mode = WinnerStays | Overflow

  /** `getCurrentGameMode`: overflow is in force only when it is selected and
      enough teams are registered; every other combination plays winner
      stays. */
  function CurrentGameMode(selector: Mode, teamCount: nat, threshold: int): (r: Mode)
    ensures r == Overflow <==> selector == Overflow && teamCount >= threshold
  {
    if selector == Overflow && teamCount >= threshold then Overflow else WinnerStays
  }

  /** Registering more teams never switches overflow off again. */
  lemma OverflowPersists(selector: Mode, n: nat, m: nat, threshold: int)
    requires n <= m && CurrentGameMode(selector, n, threshold) == Overflow
    ensures CurrentGameMode(selector, m, threshold) == Overflow
  {
  }

  /** The team that keeps its privilege: the declared winner, or `team2` (the
      challenger) on a draw. */
  function Winner(result: Outcome, t1: TeamId, t2: TeamId): TeamId {
    if result == Won(Team1) then t1 else t2
  }

  function Loser(result: Outcome, t1: TeamId, t2: TeamId): TeamId {
    if result == Won(Team1) then t2 else t1
  }

  /** The queue after the match `t1` vs `t2` ends: in overflow both go to the
      back, `team1` first, whatever the result; in winner stays the winner
      goes to the very front and the loser to the very back. Either way the
      waiting teams keep their relative order and the queue grows by two. */
  function Requeue(q: seq<TeamId>, t1: TeamId, t2: TeamId, mode: Mode, result: Outcome): (r: seq<TeamId>)
    ensures |r| == |q| + 2
    ensures multiset(r) == multiset(q) + multiset{t1, t2}
    ensures mode == Overflow ==> r[..|q|] == q && r[|q|] == t1 && r[|q| + 1] == t2
    ensures mode == WinnerStays ==>
      && r[1..|q| + 1] == q
      && r[0] == Winner(result, t1, t2)
      && r[|q| + 1] == Loser(result, t1, t2)
  {
    if mode == Overflow then q + [t1, t2]
    else if result == Draw then [t2] + q + [t1]
    else
      var winner := if result == Won(Team1) then t1 else t2;
      var loser := if result == Won(Team1) then t2 else t1;
      [winner] + q + [loser]
  }

  /** Winner and loser are the two teams of the match, one each. */
  lemma WinnerLoserSplit(result: Outcome, t1: TeamId, t2: TeamId)
    ensures multiset{Winner(result, t1, t2), Loser(result, t1, t2)} == multiset{t1, t2}
    ensures result == Draw ==> Winner(result, t1, t2) == t2
  {
  }

  /** In winner stays the front of the queue after a match is the team that
      earned the stay, then whoever was waiting first (or the other team of
      the match when nobody was). */
  lemma RequeueFront(q: seq<TeamId>, t1: TeamId, t2: TeamId, result: Outcome)
    ensures var r := Requeue(q, t1, t2, WinnerStays, result);
      r[0] == Winner(result, t1, t2)
      && r[1] == if q == [] then Loser(result, t1, t2) else q[0]
  {
    var r := Requeue(q, t1, t2, WinnerStays, result);
    if q != [] {
      assert r[1] == r[1..|q| + 1][0];
    }
  }
}
