/** The three playing fields and the match each may host. A match keeps a
    copy of each side's team id with a goal count; the source copies the whole
    team object and adds `score`, but only the id and the score are ever read
    back. */
module Fields {
  import opened Base

  /** One side of a match: the team and the goals it has scored. */
  datatype Entry = Entry(team: TeamId, score: nat)

  /** A match in progress: `team1` was first in the queue, `team2` second. */
  datatype Match = Match(team1: Entry, team2: Entry)

  datatype Field = Field(id: FieldId, name: string, active: bool, current: Option<Match>)

  /** The teams a (possible) match occupies, as a multiset. */
  function Occupants(m: Option<Match>): multiset<TeamId> {
    match m
    case None => multiset{}
    case Some(mt) => multiset{mt.team1.team, mt.team2.team}
  }

  /** Every team id held by some field's current match, counted with
      multiplicity. */
  function MatchIds(fs: seq<Field>): multiset<TeamId> {
    if fs == [] then multiset{} else Occupants(fs[0].current) + MatchIds(fs[1..])
  }

  /** The `playingTeams` set collected by `getNextAvailableTeams`: `team1` and
      `team2` of every field that has a current match. */
  function Playing(fs: seq<Field>): (r: set<TeamId>)
    ensures forall x :: x in r <==> x in MatchIds(fs)
  {
    if fs == [] then {}
    else
      var here := match fs[0].current
        case None => {}
        case Some(m) => {m.team1.team, m.team2.team};
      here + Playing(fs[1..])
  }

  predicate DistinctIds(fs: seq<Field>) {
    forall i, j :: 0 <= i < j < |fs| ==> fs[i].id != fs[j].id
  }

  /** `fields.find(f => f.id === fid)`: the first field with that id. */
  function FindField(fs: seq<Field>, fid: FieldId): (r: Option<Field>)
    ensures r.None? <==> forall i :: 0 <= i < |fs| ==> fs[i].id != fid
    ensures r.Some? ==> r.value in fs && r.value.id == fid
  {
    if fs == [] then None
    else if fs[0].id == fid then Some(fs[0])
    else
      assert forall i :: 1 <= i < |fs| ==> fs[i] == fs[1..][i - 1];
      FindField(fs[1..], fid)
  }

  /** `fields.map(f => f.id === fid ? { ...f, currentMatch: m } : f)`. */
  function SetMatch(fs: seq<Field>, fid: FieldId, m: Option<Match>): (r: seq<Field>)
    ensures |r| == |fs|
    ensures forall i :: 0 <= i < |fs| ==>
      r[i] == if fs[i].id == fid then fs[i].(current := m) else fs[i]
  {
    if fs == [] then [] else
      var f := if fs[0].id == fid then fs[0].(current := m) else fs[0];
      [f] + SetMatch(fs[1..], fid, m)
  }

  /** A field id no field carries leaves the fields untouched. */
  lemma SetMatchAbsent(fs: seq<Field>, fid: FieldId, m: Option<Match>)
    requires forall i :: 0 <= i < |fs| ==> fs[i].id != fid
    ensures SetMatch(fs, fid, m) == fs
  {
  }

  /** Replacing the match on the field at position `k` changes the multiset
      of playing teams by exactly the teams leaving and arriving there. */
  lemma {:induction false} SetMatchIds(fs: seq<Field>, k: nat, m: Option<Match>)
    requires DistinctIds(fs) && k < |fs|
    ensures MatchIds(SetMatch(fs, fs[k].id, m)) + Occupants(fs[k].current)
            == MatchIds(fs) + Occupants(m)
  {
    var fid := fs[k].id;
    if k == 0 {
      SetMatchHere(fs, fid, m);
    } else {
      var r := SetMatch(fs, fid, m);
      var tail := fs[1..];
      assert tail[k - 1] == fs[k];
      assert fs[0].id != fid;
      assert r[1..] == SetMatch(tail, fid, m);
      assert DistinctIds(tail);
      SetMatchIds(tail, k - 1, m);
      assert r[0] == fs[0];
      assert MatchIds(r) == Occupants(fs[0].current) + MatchIds(r[1..]);
      assert MatchIds(fs) == Occupants(fs[0].current) + MatchIds(tail);
      assert MatchIds(r[1..]) + Occupants(fs[k].current) == MatchIds(tail) + Occupants(m);
      CommonPart(MatchIds(r), MatchIds(fs), Occupants(fs[0].current),
                 MatchIds(r[1..]), MatchIds(tail), Occupants(fs[k].current), Occupants(m));
    }
  }

  /** The field `FindField` returns sits at some position of the list. */
  lemma FindFieldPosition(fs: seq<Field>, fid: FieldId) returns (k: nat)
    requires FindField(fs, fid).Some?
    ensures k < |fs| && fs[k] == FindField(fs, fid).value && fs[k].id == fid
  {
    var f := FindField(fs, fid).value;
    k :| k < |fs| && fs[k] == f;
  }

  lemma SetMatchHere(fs: seq<Field>, fid: FieldId, m: Option<Match>)
    requires DistinctIds(fs) && fs != [] && fs[0].id == fid
    ensures MatchIds(SetMatch(fs, fid, m)) + Occupants(fs[0].current) == MatchIds(fs) + Occupants(m)
  {
    var r := SetMatch(fs, fid, m);
    var tail := fs[1..];
    assert forall i :: 0 <= i < |tail| ==> tail[i].id != fid by {
      forall i | 0 <= i < |tail| ensures tail[i].id != fid {
        assert tail[i] == fs[i + 1];
      }
    }
    assert r[1..] == SetMatch(tail, fid, m);
    SetMatchAbsent(tail, fid, m);
    assert MatchIds(r) == Occupants(m) + MatchIds(tail);
  }

  /** The match a field currently hosts, `null` when the field is idle or
      does not exist. */
  function MatchOn(fs: seq<Field>, fid: FieldId): Option<Match> {
    match FindField(fs, fid)
    case None => None
    case Some(f) => f.current
  }

  /** Replacing the match on an existing field, named by its id, swaps the
      teams leaving for the teams arriving and touches no other field's. */
  lemma SetMatchOnIds(fs: seq<Field>, fid: FieldId, m: Option<Match>)
    requires DistinctIds(fs) && FindField(fs, fid).Some?
    ensures MatchIds(SetMatch(fs, fid, m)) + Occupants(MatchOn(fs, fid))
            == MatchIds(fs) + Occupants(m)
  {
    var k := FindFieldPosition(fs, fid);
    SetMatchIds(fs, k, m);
  }

  /** Putting a match with the same teams on a field (a new score, say)
      leaves the multiset of playing teams as it was. */
  lemma {:induction false} SameTeamsIds(fs: seq<Field>, fid: FieldId, m: Option<Match>)
    requires DistinctIds(fs) && FindField(fs, fid).Some?
    requires Occupants(m) == Occupants(MatchOn(fs, fid))
    ensures MatchIds(SetMatch(fs, fid, m)) == MatchIds(fs)
  {
    var r := SetMatch(fs, fid, m);
    assert r[1..] == SetMatch(fs[1..], fid, m);
    if fs[0].id == fid {
      forall i | 0 <= i < |fs[1..]| ensures fs[1..][i].id != fid {
        assert fs[1..][i] == fs[i + 1];
      }
      SetMatchAbsent(fs[1..], fid, m);
    } else {
      assert DistinctIds(fs[1..]);
      SameTeamsIds(fs[1..], fid, m);
    }
  }

  /** After `SetMatch`, the field looked up by `fid` carries the new match and
      every other lookup finds the same field as before. */
  lemma {:induction false} FindFieldSetMatch(fs: seq<Field>, fid: FieldId, m: Option<Match>, k: FieldId)
    ensures FindField(SetMatch(fs, fid, m), k)
            == match FindField(fs, k)
               case None => None
               case Some(f) => Some(if k == fid then f.(current := m) else f)
  {
    if fs != [] {
      var r := SetMatch(fs, fid, m);
      assert r[1..] == SetMatch(fs[1..], fid, m);
      FindFieldSetMatch(fs[1..], fid, m, k);
    }
  }

  /** `toggleField`: flips the `active` flag of the field with that id and
      leaves everything else, matches included, as it was. */
  function ToggleActive(fs: seq<Field>, fid: FieldId): (r: seq<Field>)
    ensures |r| == |fs|
    ensures forall i :: 0 <= i < |fs| ==>
      && r[i].id == fs[i].id && r[i].name == fs[i].name && r[i].current == fs[i].current
      && (r[i].active <==> (if fs[i].id == fid then !fs[i].active else fs[i].active))
  {
    if fs == [] then [] else
      var f := if fs[0].id == fid then fs[0].(active := !fs[0].active) else fs[0];
      [f] + ToggleActive(fs[1..], fid)
  }

  /** Toggling the same field twice restores every field. */
  lemma ToggleTwice(fs: seq<Field>, fid: FieldId)
    ensures ToggleActive(ToggleActive(fs, fid), fid) == fs
  {
    var r := ToggleActive(ToggleActive(fs, fid), fid);
    assert forall i :: 0 <= i < |fs| ==> r[i] == fs[i];
  }

  /** Two field lists holding the same matches, position by position, hold
      the same teams. */
  lemma {:induction false} SameMatchesSameIds(fs: seq<Field>, gs: seq<Field>)
    requires |fs| == |gs|
    requires forall i :: 0 <= i < |fs| ==> fs[i].current == gs[i].current
    ensures MatchIds(fs) == MatchIds(gs)
  {
    if fs != [] {
      SameMatchesSameIds(fs[1..], gs[1..]);
    }
  }

  predicate SortedById(fs: seq<Field>) {
    forall i, j :: 0 <= i < j < |fs| ==> fs[i].id <= fs[j].id
  }

  /** `fields.filter(f => f.isActive)`: every active field as often as it
      occurs, and no other. */
  function OnlyActive(fs: seq<Field>): (r: seq<Field>)
    ensures forall f :: f in r <==> f in fs && f.active
    ensures forall f :: multiset(r)[f] == if f.active then multiset(fs)[f] else 0
  {
    if fs == [] then []
    else
      assert fs == [fs[0]] + fs[1..];
      if fs[0].active then [fs[0]] + OnlyActive(fs[1..])
      else OnlyActive(fs[1..])
  }

  /** Inserts `f` in front of the first field whose id is not smaller, so a
      sorted list stays sorted. */
  function InsertById(f: Field, s: seq<Field>): (r: seq<Field>)
    requires SortedById(s)
    ensures SortedById(r)
    ensures multiset(r) == multiset(s) + multiset{f}
    ensures r != [] && (r[0] == f || (s != [] && r[0] == s[0]))
  {
    if s == [] || f.id <= s[0].id then
      ConsSorted(f, s);
      [f] + s
    else
      var t := InsertById(f, s[1..]);
      assert s == [s[0]] + s[1..];
      ConsSorted(s[0], t);
      [s[0]] + t
  }

  /** A field no later than the head of a sorted list can go in front of it. */
  lemma ConsSorted(f: Field, t: seq<Field>)
    requires SortedById(t) && (t == [] || f.id <= t[0].id)
    ensures SortedById([f] + t)
  {
    var r := [f] + t;
    forall i, j | 0 <= i < j < |r| ensures r[i].id <= r[j].id {
      if i == 0 {
        assert r[j] == t[j - 1];
      } else {
        assert r[i] == t[i - 1] && r[j] == t[j - 1];
      }
    }
  }

  /** A stable sort by ascending id: `sort((a, b) => a.id - b.id)`. */
  function SortById(fs: seq<Field>): (r: seq<Field>)
    ensures SortedById(r)
    ensures multiset(r) == multiset(fs)
  {
    if fs == [] then []
    else
      assert fs == [fs[0]] + fs[1..];
      InsertById(fs[0], SortById(fs[1..]))
  }

  /** `getActiveFields`: exactly the active fields, in ascending id order,
      a rearrangement of the filtered list. */
  function ActiveFields(fs: seq<Field>): (r: seq<Field>)
    ensures SortedById(r)
    ensures forall f :: f in r <==> f in fs && f.active
    ensures |r| == |OnlyActive(fs)|
    ensures multiset(r) == multiset(OnlyActive(fs))
  {
    var a := OnlyActive(fs);
    var r := SortById(a);
    assert forall f :: f in r <==> f in multiset(a);
    assert |r| == |multiset(r)| == |multiset(a)| == |a|;
    r
  }

  /** With distinct field ids, as the fixed fields 1, 2, 3 have, every
      active field is listed exactly once and no other field at all. */
  lemma ActiveFieldsOnce(fs: seq<Field>)
    requires DistinctIds(fs)
    ensures forall f :: multiset(ActiveFields(fs))[f] == if f in fs && f.active then 1 else 0
  {
    DistinctOnce(fs);
  }

  /** Distinct ids make every field occur at most once. */
  lemma {:induction false} DistinctOnce(fs: seq<Field>)
    requires DistinctIds(fs)
    ensures forall f :: multiset(fs)[f] <= 1
  {
    if fs != [] {
      var tail := fs[1..];
      assert DistinctIds(tail);
      DistinctOnce(tail);
      assert fs == [fs[0]] + tail;
      assert fs[0] !in tail by {
        forall i | 0 <= i < |tail| ensures tail[i] != fs[0] {
          assert tail[i] == fs[i + 1];
        }
      }
    }
  }

  /** On fields already in id order (the fixed fields 1, 2, 3 never move), the
      sort keeps the filtered order as it is. */
  lemma {:induction false} ActiveFieldsOfSorted(fs: seq<Field>)
    requires SortedById(fs)
    ensures ActiveFields(fs) == OnlyActive(fs)
  {
    OnlyActiveSorted(fs);
    SortOfSorted(OnlyActive(fs));
  }

  lemma {:induction false} OnlyActiveSorted(fs: seq<Field>)
    requires SortedById(fs)
    ensures SortedById(OnlyActive(fs))
  {
    if fs != [] {
      OnlyActiveSorted(fs[1..]);
      var rest := OnlyActive(fs[1..]);
      if fs[0].active {
        if rest != [] {
          assert rest[0] in fs[1..];
          var k :| 0 <= k < |fs[1..]| && fs[1..][k] == rest[0];
          assert fs[k + 1] == rest[0];
        }
        ConsSorted(fs[0], rest);
      }
    }
  }

  lemma {:induction false} SortOfSorted(fs: seq<Field>)
    requires SortedById(fs)
    ensures SortById(fs) == fs
  {
    if fs != [] {
      SortOfSorted(fs[1..]);
      if |fs| > 1 {
        assert fs[0].id <= fs[1].id;
      }
    }
  }
}
