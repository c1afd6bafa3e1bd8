/** `calculateStandings` (src/data/mock.ts:103-165): one zeroed row per team,
    a pass over the completed matches that credits both sides, the goal
    difference recomputed, and the rows ordered by `Ranking.Rank`.

    `CalculateStandings` is the imperative procedure, with the JavaScript
    `Map` as a map plus the sequence of its keys in insertion order;
    `StandingsTable` is the same computation stated as functions, and the lemmas
    below state what the table satisfies. */
module Standings {

  import opened Types
  import opened Ranking

  /** A match enters the table only when it is completed and both scores are numbers. */
  predicate Counts(m: Match) {
    m.status == Completed && m.scoreA.Some? && m.scoreB.Some?
  }

  function TeamIds(teams: seq<Team>): set<string> {
    set t | t in teams :: t.id
  }

  /** The source dereferences the looked-up row of both sides of every counted
      match; a side missing from `teams` makes the update throw. */
  ghost predicate Registered(teams: seq<Team>, matches: seq<Match>) {
    forall m :: m in matches && Counts(m) ==> m.teamA.id in TeamIds(teams) && m.teamB.id in TeamIds(teams)
  }

  ghost predicate NoDup(ids: seq<string>) {
    forall i, j :: 0 <= i < j < |ids| ==> ids[i] != ids[j]
  }

  /** The row a team starts with. */
  function Zero(team: Team): StandingEntry {
    StandingEntry(team.id, team.name, team.logoUrl, 0, 0, 0, 0, 0, 0, 0, 0)
  }

  ghost predicate IsZero(e: StandingEntry) {
    e.played == e.won == e.drawn == e.lost == e.goalsFor == e.goalsAgainst == e.points == 0
    && e.goalDifference == 0
  }

  /** The accounting identities every row keeps. */
  ghost predicate Consistent(e: StandingEntry) {
    e.played == e.won + e.drawn + e.lost && e.points == 3 * e.won + e.drawn
  }

  /** Position of the last team in `teams` carrying `id`. */
  function LastIndex(teams: seq<Team>, id: string): (i: nat)
    requires id in TeamIds(teams)
    ensures i < |teams| && teams[i].id == id
    ensures forall j :: i < j < |teams| ==> teams[j].id != id
  {
    var prefix := teams[..|teams| - 1];
    if teams[|teams| - 1].id == id then |teams| - 1
    else
      assert id in TeamIds(prefix) by {
        var u :| u in teams && u.id == id;
        assert u in prefix;
      }
      var i := LastIndex(prefix, id);
      assert forall j :: i < j < |teams| - 1 ==> teams[j] == prefix[j];
      i
  }

  /** The team whose row the map keeps for `id`: `Map.set` on a present key
      replaces its value, so it is the last team in `teams` carrying `id`. */
  function LastWithId(teams: seq<Team>, id: string): (t: Team)
    requires id in TeamIds(teams)
    ensures t in teams && t.id == id
    ensures exists i :: 0 <= i < |teams| && teams[i] == t && forall j :: i < j < |teams| ==> teams[j].id != id
  {
    teams[LastIndex(teams, id)]
  }

  /** Position of the first team in `teams` carrying `id`. */
  function FirstIndex(teams: seq<Team>, id: string): (i: nat)
    requires id in TeamIds(teams)
    ensures i < |teams| && teams[i].id == id
  {
    var prefix := teams[..|teams| - 1];
    if id in TeamIds(prefix) then FirstIndex(prefix, id) else |teams| - 1
  }

  /** No team before position `FirstIndex(teams, id)` carries `id`. */
  lemma {:induction false} FirstIndexIsFirst(teams: seq<Team>, id: string, j: nat)
    requires id in TeamIds(teams) && j < FirstIndex(teams, id)
    ensures teams[j].id != id
  {
    var prefix := teams[..|teams| - 1];
    assert teams[j] == prefix[j];
    if id in TeamIds(prefix) {
      FirstIndexIsFirst(prefix, id, j);
    } else {
      assert prefix[j] in prefix;
    }
  }

  /** The keys of the standings map in insertion order: each distinct id once. */
  function InsertionOrder(teams: seq<Team>): (order: seq<string>)
    ensures NoDup(order)
    ensures forall id :: id in order <==> id in TeamIds(teams)
  {
    if |teams| == 0 then []
    else
      var prefix := teams[..|teams| - 1];
      var o := InsertionOrder(prefix);
      var id := teams[|teams| - 1].id;
      assert teams == prefix + [teams[|teams| - 1]];
      if id in o then o else o + [id]
  }

  /** The standings map once every team has been registered. */
  function InitialTable(teams: seq<Team>): (t: map<string, StandingEntry>)
    ensures t.Keys == TeamIds(teams)
  {
    if |teams| == 0 then map[]
    else
      var last := teams[|teams| - 1];
      assert teams == teams[..|teams| - 1] + [last];
      InitialTable(teams[..|teams| - 1])[last.id := Zero(last)]
  }

  /** What one side of a counted match adds to its row: one more game with
      exactly one result, and the row's identities kept. */
  function Credit(e: StandingEntry, scored: nat, conceded: nat): (e': StandingEntry)
    ensures e'.teamId == e.teamId && e'.teamName == e.teamName && e'.teamLogoUrl == e.teamLogoUrl
    ensures e'.played == e.played + 1 && e'.goalDifference == e.goalDifference
    ensures e'.goalsFor == e.goalsFor + scored && e'.goalsAgainst == e.goalsAgainst + conceded
    ensures e.won <= e'.won && e.drawn <= e'.drawn && e.lost <= e'.lost
    ensures e'.won + e'.drawn + e'.lost == e.won + e.drawn + e.lost + 1
    ensures e'.won > e.won <==> scored > conceded
    ensures e'.drawn > e.drawn <==> scored == conceded
    ensures e'.lost > e.lost <==> scored < conceded
    ensures e'.points - e.points == 3 * (e'.won - e.won) + (e'.drawn - e.drawn)
    ensures Consistent(e) ==> Consistent(e')
  {
    e.(played := e.played + 1,
       goalsFor := e.goalsFor + scored,
       goalsAgainst := e.goalsAgainst + conceded,
       won := if scored > conceded then e.won + 1 else e.won,
       drawn := if scored == conceded then e.drawn + 1 else e.drawn,
       lost := if scored < conceded then e.lost + 1 else e.lost,
       points := e.points + (if scored > conceded then 3 else if scored == conceded then 1 else 0))
  }

  /** One step of the fold over the matches: team A's row, then team B's row
      as it stands afterwards (the same row when both sides are one team). */
  function ApplyMatch(t: map<string, StandingEntry>, m: Match): (t': map<string, StandingEntry>)
    requires Counts(m) ==> m.teamA.id in t && m.teamB.id in t
    ensures t'.Keys == t.Keys
  {
    if !Counts(m) then t
    else
      var a, b := m.teamA.id, m.teamB.id;
      var t1 := t[a := Credit(t[a], m.scoreA.value, m.scoreB.value)];
      t1[b := Credit(t1[b], m.scoreB.value, m.scoreA.value)]
  }

  /** The table after folding `matches`, in order, into `t`. */
  function Tally(t: map<string, StandingEntry>, matches: seq<Match>): (t': map<string, StandingEntry>)
    requires forall m :: m in matches && Counts(m) ==> m.teamA.id in t && m.teamB.id in t
    ensures t'.Keys == t.Keys
  {
    if |matches| == 0 then t
    else
      var prefix := matches[..|matches| - 1];
      assert forall m :: m in prefix ==> m in matches;
      ApplyMatch(Tally(t, prefix), matches[|matches| - 1])
  }

  /** `Array.from(map.values())` for the keys listed in `order`. */
  function Values(order: seq<string>, t: map<string, StandingEntry>): (es: seq<StandingEntry>)
    requires forall id :: id in order ==> id in t
    ensures |es| == |order|
    ensures forall i :: 0 <= i < |order| ==> es[i] == t[order[i]]
  {
    if |order| == 0 then [] else [t[order[0]]] + Values(order[1..], t)
  }

  /** The `map` that recomputes the goal difference of every row. */
  function WithGoalDifference(es: seq<StandingEntry>): (r: seq<StandingEntry>)
    ensures |r| == |es|
    ensures forall i :: 0 <= i < |es| ==> r[i] == es[i].(goalDifference := es[i].goalsFor - es[i].goalsAgainst)
  {
    if |es| == 0 then []
    else [es[0].(goalDifference := es[0].goalsFor - es[0].goalsAgainst)] + WithGoalDifference(es[1..])
  }

  /** The rows before sorting, in insertion order. */
  function Unranked(teams: seq<Team>, matches: seq<Match>): (rows: seq<StandingEntry>)
    requires Registered(teams, matches)
    ensures |rows| == |InsertionOrder(teams)|
  {
    WithGoalDifference(Values(InsertionOrder(teams), Tally(InitialTable(teams), matches)))
  }

  /** The table `calculateStandings` returns: one row per registered id,
      ordered by the comparator. */
  function StandingsTable(teams: seq<Team>, matches: seq<Match>): (table: seq<StandingEntry>)
    requires Registered(teams, matches)
    ensures |table| == |InsertionOrder(teams)|
    ensures Sorted(table) && multiset(table) == multiset(Unranked(teams, matches))
  {
    var rows := Unranked(teams, matches);
    var table := Rank(rows);
    assert |table| == |multiset(table)| == |multiset(rows)| == |rows|;
    table
  }

  /** The procedure of the source: fill a map, fold the matches into it with
      in-place increments, then list, recompute and sort. */
  method CalculateStandings(teams: seq<Team>, matches: seq<Match>) returns (table: seq<StandingEntry>)
    requires Registered(teams, matches)
    ensures table == StandingsTable(teams, matches)
  {
    var standingsMap, keys := RegisterTeams(teams);
    standingsMap := RecordMatches(standingsMap, matches);
    table := Rank(WithGoalDifference(Values(keys, standingsMap)));
  }

  /** `teams.forEach`: a zeroed row per team under its id, the keys kept in
      the order the map first saw them. */
  method RegisterTeams(teams: seq<Team>) returns (standingsMap: map<string, StandingEntry>, keys: seq<string>)
    ensures standingsMap == InitialTable(teams) && keys == InsertionOrder(teams)
  {
    standingsMap, keys := map[], [];
    for i := 0 to |teams|
      invariant keys == InsertionOrder(teams[..i])
      invariant standingsMap == InitialTable(teams[..i])
    {
      var team := teams[i];
      RegisterStep(teams, i);
      if team.id !in standingsMap {
        keys := keys + [team.id];
      }
      standingsMap := standingsMap[team.id := StandingEntry(team.id, team.name, team.logoUrl, 0, 0, 0, 0, 0, 0, 0, 0)];
    }
    assert teams[..|teams|] == teams;
  }

  /** One more team registered: its id joins the keys unless already there,
      and its row is (re)set to zero. */
  lemma RegisterStep(teams: seq<Team>, i: nat)
    requires i < |teams|
    ensures var id := teams[i].id;
      && (id in InitialTable(teams[..i]) <==> id in InsertionOrder(teams[..i]))
      && InitialTable(teams[..i + 1]) == InitialTable(teams[..i])[id := Zero(teams[i])]
      && InsertionOrder(teams[..i + 1])
         == if id in InsertionOrder(teams[..i]) then InsertionOrder(teams[..i]) else InsertionOrder(teams[..i]) + [id]
  {
    assert teams[..i + 1][..i] == teams[..i];
  }

  /** `matches.forEach`: each match recorded in turn. */
  method RecordMatches(standingsMap: map<string, StandingEntry>, matches: seq<Match>) returns (updated: map<string, StandingEntry>)
    requires forall m :: m in matches && Counts(m) ==> m.teamA.id in standingsMap && m.teamB.id in standingsMap
    ensures updated == Tally(standingsMap, matches)
  {
    updated := standingsMap;
    for k := 0 to |matches|
      invariant updated.Keys == standingsMap.Keys
      invariant forall m :: m in matches[..k] ==> m in matches
      invariant updated == Tally(standingsMap, matches[..k])
    {
      assert matches[..k + 1][..k] == matches[..k];
      updated := RecordMatch(updated, matches[k]);
    }
    assert matches[..|matches|] == matches;
  }

  /** The `forEach` callback over the matches: skip a match that does not
      count, otherwise increment both rows in place, field by field. */
  method RecordMatch(standingsMap: map<string, StandingEntry>, m: Match) returns (updated: map<string, StandingEntry>)
    requires Counts(m) ==> m.teamA.id in standingsMap && m.teamB.id in standingsMap
    ensures updated == ApplyMatch(standingsMap, m)
  {
    updated := standingsMap;
    if m.status != Completed || m.scoreA.None? || m.scoreB.None? {
      return;
    }
    var a, b := m.teamA.id, m.teamB.id;
    var scoreA, scoreB := m.scoreA.value, m.scoreB.value;
    updated := updated[a := updated[a].(played := updated[a].played + 1)];
    updated := updated[b := updated[b].(played := updated[b].played + 1)];
    updated := updated[a := updated[a].(goalsFor := updated[a].goalsFor + scoreA)];
    updated := updated[a := updated[a].(goalsAgainst := updated[a].goalsAgainst + scoreB)];
    updated := updated[b := updated[b].(goalsFor := updated[b].goalsFor + scoreB)];
    updated := updated[b := updated[b].(goalsAgainst := updated[b].goalsAgainst + scoreA)];
    if scoreA > scoreB {
      updated := updated[a := updated[a].(won := updated[a].won + 1)];
      updated := updated[a := updated[a].(points := updated[a].points + 3)];
      updated := updated[b := updated[b].(lost := updated[b].lost + 1)];
    } else if scoreB > scoreA {
      updated := updated[b := updated[b].(won := updated[b].won + 1)];
      updated := updated[b := updated[b].(points := updated[b].points + 3)];
      updated := updated[a := updated[a].(lost := updated[a].lost + 1)];
    } else {
      updated := updated[a := updated[a].(drawn := updated[a].drawn + 1)];
      updated := updated[b := updated[b].(drawn := updated[b].drawn + 1)];
      updated := updated[a := updated[a].(points := updated[a].points + 1)];
      updated := updated[b := updated[b].(points := updated[b].points + 1)];
    }
  }
}
