/** The global queue of waiting teams, held as team ids (front = next to play),
    and the queue operations of `src/App.js`: filtering out teams, moving one
    team up or down, and shuffling. */
module Queue {
  import opened Base

  /** `a` is `b` with some elements left out and the rest kept in order. */
  predicate IsSubsequence(a: seq<TeamId>, b: seq<TeamId>)
    decreases |b|
  {
    if a == [] then true
    else if b == [] then false
    else if a[0] == b[0] then IsSubsequence(a[1..], b[1..])
    else IsSubsequence(a, b[1..])
  }

  /** No team id occurs twice. */
  predicate Distinct(q: seq<TeamId>) {
    forall x | x in q :: multiset(q)[x] == 1
  }

  /** `q.filter(team => !drop.has(team.id))`: every occurrence of an id in
      `drop` is removed, every other element is kept, in its order. */
  function Without(q: seq<TeamId>, drop: set<TeamId>): (r: seq<TeamId>)
    ensures IsSubsequence(r, q)
    ensures forall x :: multiset(r)[x] == if x in drop then 0 else multiset(q)[x]
  {
    if q == [] then []
    else
      assert q == [q[0]] + q[1..];
      var rest := Without(q[1..], drop);
      if q[0] in drop then
        SubsequenceOfTail(rest, q);
        rest
      else
        [q[0]] + rest
  }

  /** Dropping a pair of teams, counted team by team. */
  lemma WithoutPair(q: seq<TeamId>, a: TeamId, b: TeamId)
    ensures forall x :: multiset(Without(q, {a, b}))[x] == if x == a || x == b then 0 else multiset(q)[x]
  {
    forall x ensures multiset(Without(q, {a, b}))[x] == if x == a || x == b then 0 else multiset(q)[x] {
      assert x in {a, b} <==> x == a || x == b;
    }
  }

  lemma SubsequenceOfTail(a: seq<TeamId>, b: seq<TeamId>)
    requires b != [] && IsSubsequence(a, b[1..])
    ensures IsSubsequence(a, b)
    decreases |b|, 0
  {
    if a != [] && a[0] == b[0] {
      SubsequenceDropHead(a, b[1..]);
    }
  }

  lemma SubsequenceDropHead(a: seq<TeamId>, b: seq<TeamId>)
    requires a != [] && IsSubsequence(a, b)
    ensures IsSubsequence(a[1..], b)
    decreases |b|, 1
  {
    if a[0] == b[0] {
      if b[1..] != [] || a[1..] == [] {
        if a[1..] != [] {
          SubsequenceOfTail(a[1..], b);
        }
      }
    } else {
      SubsequenceDropHead(a, b[1..]);
      SubsequenceOfTail(a[1..], b);
    }
  }

  /** Filtering out ids that do not occur changes nothing. */
  lemma {:induction false} WithoutAbsent(q: seq<TeamId>, drop: set<TeamId>)
    requires forall x :: x in q ==> x !in drop
    ensures Without(q, drop) == q
  {
    if q != [] {
      WithoutAbsent(q[1..], drop);
    }
  }

  /** `findIndex`: the position of the first occurrence of `id`, if any. */
  function IndexOf(q: seq<TeamId>, id: TeamId): (r: Option<nat>)
    ensures r.None? <==> id !in q
    ensures r.Some? ==> r.value < |q| && q[r.value] == id && id !in q[..r.value]
  {
    if q == [] then None
    else if q[0] == id then Some(0)
    else
      match IndexOf(q[1..], id)
      case None => None
      case Some(i) =>
        assert q[..i + 1] == [q[0]] + q[1..][..i];
        Some(i + 1)
  }

  datatype Direction = Up | Down

  /** Where a move sends the team at position `i`: one place towards the
      front for `Up`, one towards the back otherwise. */
  function Target(i: nat, dir: Direction): int {
    if dir == Up then i - 1 else i + 1
  }

  /** `moveTeamInQueue`: swaps the first occurrence of `id` with its neighbour
      above or below. Nothing changes when `id` is not queued or the
      neighbour's position is outside the queue; otherwise exactly those two
      positions trade places. */
  function MoveTeam(q: seq<TeamId>, id: TeamId, dir: Direction): (r: seq<TeamId>)
    ensures multiset(r) == multiset(q)
    ensures id !in q ==> r == q
    ensures id in q ==>
      var i := IndexOf(q, id).value;
      var j := Target(i, dir);
      if j < 0 || j >= |q| then r == q
      else
        && |r| == |q| && r[i] == q[j] && r[j] == q[i]
        && forall k :: 0 <= k < |q| && k != i && k != j ==> r[k] == q[k]
  {
    match IndexOf(q, id)
    case None => q
    case Some(i) =>
      var j := Target(i, dir);
      if j < 0 || j >= |q| then q
      else
        var r := q[i := q[j]][j := q[i]];
        SwapMultiset(q, i, j);
        r
  }

  lemma SwapMultiset(q: seq<TeamId>, i: nat, j: nat)
    requires i < |q| && j < |q|
    ensures multiset(q[i := q[j]][j := q[i]]) == multiset(q)
  {
    var r := q[i := q[j]];
    assert multiset(r) == multiset(q) - multiset{q[i]} + multiset{q[j]};
    assert r[j] == q[j];
  }

  /** Moving a team up and then down again restores the queue, as long as
      the team is not already at the front. */
  lemma MoveUpThenDown(q: seq<TeamId>, id: TeamId)
    requires id in q && IndexOf(q, id).value > 0
    ensures MoveTeam(MoveTeam(q, id, Up), id, Down) == q
  {
    var i := IndexOf(q, id).value;
    var q1 := MoveTeam(q, id, Up);
    MoveTeamSwaps(q, id, Up, i);
    assert q1 == q[i := q[i - 1]][i - 1 := q[i]];
    assert q1[i - 1] == id;
    assert id !in q1[..i - 1] by {
      forall k | 0 <= k < i - 1 ensures q1[k] != id {
        assert q1[k] == q[k] && q[k] != id;
      }
    }
    IndexOfFirst(q1, id, i - 1);
    assert IndexOf(q1, id) == Some(i - 1);
    assert |q1| == |q|;
    assert Target(i - 1, Down) == i;
    MoveTeamSwaps(q1, id, Down, i - 1);
    SwapBack(q, i);
  }

  /** A move that stays inside the queue swaps the team with its neighbour. */
  lemma MoveTeamSwaps(q: seq<TeamId>, id: TeamId, dir: Direction, i: nat)
    requires IndexOf(q, id) == Some(i) && 0 <= Target(i, dir) < |q|
    ensures MoveTeam(q, id, dir) == q[i := q[Target(i, dir)]][Target(i, dir) := q[i]]
  {
  }

  lemma SwapBack(q: seq<TeamId>, i: nat)
    requires 0 < i < |q|
    ensures var q1 := q[i := q[i - 1]][i - 1 := q[i]];
      q1[i - 1 := q1[i]][i := q1[i - 1]] == q
  {
    var q1 := q[i := q[i - 1]][i - 1 := q[i]];
    SamePositions(q1[i - 1 := q1[i]][i := q1[i - 1]], q);
  }

  lemma SamePositions(a: seq<TeamId>, b: seq<TeamId>)
    requires |a| == |b| && forall k :: 0 <= k < |a| ==> a[k] == b[k]
    ensures a == b
  {
  }

  lemma IndexOfFirst(q: seq<TeamId>, id: TeamId, i: nat)
    requires i < |q| && q[i] == id && id !in q[..i]
    ensures IndexOf(q, id) == Some(i)
  {
    if i > 0 {
      assert q[..i][0] == q[0];
      assert q[1..][..i - 1] == q[..i][1..];
      IndexOfFirst(q[1..], id, i - 1);
    }
  }

  /** `q` without its element at position `i`. */
  function RemoveAt(q: seq<TeamId>, i: nat): (r: seq<TeamId>)
    requires i < |q|
    ensures |r| == |q| - 1
    ensures multiset(r) == multiset(q) - multiset{q[i]}
  {
    assert q == q[..i] + [q[i]] + q[i + 1..];
    q[..i] + q[i + 1..]
  }

  /** The position the next random choice selects among `n` remaining teams. */
  function NextPick(picks: seq<nat>, n: nat): (i: nat)
    requires n > 0
    ensures i < n
  {
    if picks == [] then 0 else picks[0] % n
  }

  lemma SmallModulo(i: nat, n: nat)
    requires i < n
    ensures i % n == i
  {
  }

  function LaterPicks(picks: seq<nat>): seq<nat> {
    if picks == [] then [] else picks[1..]
  }

  /** `shuffleQueue`, with the random comparator's choices made explicit:
      each entry of `picks` selects, modulo the number of teams still
      unplaced, the next team of the result. Whatever the choices, the result
      is a rearrangement of the queue. */
  function Shuffle(q: seq<TeamId>, picks: seq<nat>): (r: seq<TeamId>)
    ensures multiset(r) == multiset(q)
    ensures |r| == |q|
    decreases |q|
  {
    if q == [] then []
    else
      var i := NextPick(picks, |q|);
      [q[i]] + Shuffle(RemoveAt(q, i), LaterPicks(picks))
  }

  /** The choices under which `Shuffle` produces the rearrangement `p`. */
  function PicksFor(q: seq<TeamId>, p: seq<TeamId>): seq<nat>
    requires multiset(p) == multiset(q)
    decreases |p|
  {
    if p == [] then []
    else
      FirstPick(q, p);
      var i := IndexOf(q, p[0]).value;
      [i] + PicksFor(RemoveAt(q, i), p[1..])
  }

  /** The first team of a rearrangement is in the queue, and the rest of the
      rearrangement rearranges the queue without it. */
  lemma FirstPick(q: seq<TeamId>, p: seq<TeamId>)
    requires multiset(p) == multiset(q) && p != []
    ensures IndexOf(q, p[0]).Some?
    ensures multiset(p[1..]) == multiset(RemoveAt(q, IndexOf(q, p[0]).value))
  {
    assert p[0] in multiset(q);
    assert p == [p[0]] + p[1..];
  }

  lemma HeadTail(p: seq<TeamId>)
    requires p != []
    ensures [p[0]] + p[1..] == p
  {
  }

  /** Every rearrangement of the queue is a possible shuffle: the model
      leaves the order entirely to the random choices. */
  lemma ShuffleReachesEvery(q: seq<TeamId>, p: seq<TeamId>)
    requires multiset(p) == multiset(q)
    ensures exists picks :: Shuffle(q, picks) == p
  {
    ShuffleOfPicksFor(q, p);
  }

  lemma {:induction false} ShuffleOfPicksFor(q: seq<TeamId>, p: seq<TeamId>)
    requires multiset(p) == multiset(q)
    ensures Shuffle(q, PicksFor(q, p)) == p
    decreases |p|
  {
    if p != [] {
      FirstPick(q, p);
      var i := IndexOf(q, p[0]).value;
      var tail := PicksFor(RemoveAt(q, i), p[1..]);
      var picks := PicksFor(q, p);
      assert picks == [i] + tail;
      assert picks[0] == i;
      SmallModulo(i, |q|);
      assert LaterPicks(picks) == tail;
      ShuffleOfPicksFor(RemoveAt(q, i), p[1..]);
      assert Shuffle(q, picks) == [q[i]] + Shuffle(RemoveAt(q, i), tail);
      assert q[i] == p[0];
      assert Shuffle(q, picks) == [p[0]] + p[1..];
      HeadTail(p);
    } else {
      assert |q| == 0;
    }
  }
}
