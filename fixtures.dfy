/** The fixture and roster generators of src/data/mock.ts:
    `createMatchesForCompetition` (a round robin over the teams, cut to six
    matches), `generatePlayers`, and `getMatchesByTeamId` as a filter over the
    matches of the given competitions.

    `Math.random` is the parameter `random`: the n-th call returns
    `random(n)`, a number in [0, 1), and the generator threads the position of
    the next call through the schedule. */
module Fixtures {

  import opened Types
  import opened Text
  import Standings

  // ---------------------------------------------------------------------
  // Constants of the generator

  const Statuses: seq<MatchStatus> := [Scheduled, Completed, Live, Postponed]

  /** `new Date(2024, m, d).toISOString()` for the six match days, with the
      local time zone taken to be UTC. */
  const MatchDates: seq<string> := [
    "2024-07-15T00:00:00.000Z", "2024-07-16T00:00:00.000Z",
    "2024-07-20T00:00:00.000Z", "2024-07-21T00:00:00.000Z",
    "2024-08-05T00:00:00.000Z", "2024-08-06T00:00:00.000Z"]

  const MatchTimes: seq<string> := ["14:00", "16:00", "18:00", "20:00"]

  const Venues: seq<string> := ["Main Stadium", "Field Alpha", "Arena Beta", "Community Pitch"]

  /** At most this many matches are kept per competition. */
  const MaxMatches: nat := 6

  const LiveSummary: string := "Match currently in progress. Exciting plays unfolding!"
  const ScheduledSummary: string := "Get ready for this exciting matchup!"
  const PostponedSummary: string := "This match has been postponed. New details will be announced soon."

  const Positions: seq<string> := ["Forward", "Midfielder", "Defender", "Goalkeeper"]

  function Min(a: nat, b: nat): nat {
    if a < b then a else b
  }

  // ---------------------------------------------------------------------
  // Random draws

  /** Every call of `Math.random` returns a number in [0, 1). */
  ghost predicate RandomStream(random: nat -> real) {
    forall n: nat :: 0.0 <= random(n) < 1.0
  }

  /** `Math.floor(x * bound)` for a draw `x`: an integer below `bound`. */
  function Draw(x: real, bound: nat): (v: nat)
    requires 0.0 <= x < 1.0 && 0 < bound
    ensures v < bound
  {
    var b := bound as real;
    assert 0.0 <= x * b < b by {
      assert 0.0 < (1.0 - x) * b;
    }
    (x * b).Floor
  }

  // ---------------------------------------------------------------------
  // The pairs of the round robin

  /** The pairs (i, j) with i < j < upTo, in increasing j. */
  function Row(i: nat, upTo: nat): (r: seq<(nat, nat)>)
    ensures |r| == if upTo > i then upTo - i - 1 else 0
    ensures forall k :: 0 <= k < |r| ==> r[k] == (i, i + 1 + k)
  {
    if upTo <= i + 1 then [] else Row(i, upTo - 1) + [(i, upTo - 1)]
  }

  /** The pairs visited by the nested loops before the outer index reaches `i`. */
  function PairsBefore(n: nat, i: nat): seq<(nat, nat)> {
    if i == 0 then [] else PairsBefore(n, i - 1) + Row(i - 1, n)
  }

  /** Every pair of team positions, in the order the nested loops visit them. */
  function Pairs(n: nat): seq<(nat, nat)> {
    PairsBefore(n, n)
  }

  /** `p` comes strictly before `q` in row-major order. */
  predicate Before(p: (nat, nat), q: (nat, nat)) {
    p.0 < q.0 || (p.0 == q.0 && p.1 < q.1)
  }

  ghost predicate ValidPairs(pairs: seq<(nat, nat)>, n: nat) {
    forall k :: 0 <= k < |pairs| ==> pairs[k].0 < pairs[k].1 < n
  }

  /** The loops visit n(n-1)/2 pairs. */
  lemma {:induction false} PairsBeforeCount(n: nat, i: nat)
    requires i <= n
    ensures 2 * |PairsBefore(n, i)| == i * (2 * n - i - 1)
  {
    if i > 0 {
      PairsBeforeCount(n, i - 1);
      assert |PairsBefore(n, i)| == |PairsBefore(n, i - 1)| + (n - i);
      PairsStep(n, i);
    }
  }

  /** The step of `PairsBeforeCount`: adding row `i - 1`, of `n - i` pairs. */
  lemma PairsStep(n: int, i: int)
    ensures (i - 1) * (2 * n - (i - 1) - 1) + 2 * (n - i) == i * (2 * n - i - 1)
  {
  }

  lemma PairsCount(n: nat)
    ensures |Pairs(n)| == n * (n - 1) / 2
  {
    PairsBeforeCount(n, n);
  }

  /** The pairs visited before row `i` are proper pairs of positions, in
      row-major order, all in rows below `i`. */
  lemma {:induction false} PairsBeforeOrdered(n: nat, i: nat)
    requires i <= n
    ensures ValidPairs(PairsBefore(n, i), n)
    ensures forall k :: 0 <= k < |PairsBefore(n, i)| ==> PairsBefore(n, i)[k].0 < i
    ensures forall a, b :: 0 <= a < b < |PairsBefore(n, i)| ==> Before(PairsBefore(n, i)[a], PairsBefore(n, i)[b])
  {
    if i > 0 {
      PairsBeforeOrdered(n, i - 1);
      var p, r := PairsBefore(n, i - 1), Row(i - 1, n);
      assert PairsBefore(n, i) == p + r;
      forall a, b | 0 <= a < b < |p + r| ensures Before((p + r)[a], (p + r)[b]) {
        if b < |p| {
          assert (p + r)[a] == p[a] && (p + r)[b] == p[b];
        } else if a < |p| {
          assert (p + r)[a] == p[a] && (p + r)[b] == r[b - |p|];
        } else {
          assert (p + r)[a] == r[a - |p|] && (p + r)[b] == r[b - |p|];
        }
      }
    }
  }

  /** The schedule pairs each two positions exactly once, in row-major order. */
  lemma PairsOrdered(n: nat)
    ensures ValidPairs(Pairs(n), n)
    ensures forall a, b :: 0 <= a < b < |Pairs(n)| ==> Before(Pairs(n)[a], Pairs(n)[b])
  {
    PairsBeforeOrdered(n, n);
  }

  /** Every pair i < j < n is visited before row `i + 1` ends. */
  lemma {:induction false} PairsBeforeComplete(n: nat, i: nat, x: nat, y: nat)
    requires x < i && x < y < n
    ensures (x, y) in PairsBefore(n, i)
  {
    var p, r := PairsBefore(n, i - 1), Row(i - 1, n);
    if x == i - 1 {
      assert r[y - i] == (x, y);
    } else {
      PairsBeforeComplete(n, i - 1, x, y);
    }
    assert PairsBefore(n, i) == p + r;
  }

  lemma PairsComplete(n: nat, x: nat, y: nat)
    requires x < y < n
    ensures (x, y) in Pairs(n)
  {
    PairsBeforeComplete(n, n, x, y);
  }

  // ---------------------------------------------------------------------
  // One fixture

  /** `match-<competitionId>-<k>` */
  function MatchId(competitionId: string, k: nat): string {
    "match-" + competitionId + "-" + NatToString(k)
  }

  /** The match id carries its counter, which reads back from the id. */
  lemma MatchIdNumber(competitionId: string, k: nat)
    ensures var prefix := "match-" + competitionId + "-";
      |prefix| < |MatchId(competitionId, k)| && ParseNat(MatchId(competitionId, k)[|prefix|..]) == Some(k)
  {
    var prefix := "match-" + competitionId + "-";
    assert MatchId(competitionId, k)[|prefix|..] == NatToString(k);
    ParseNatToString(k);
  }

  /** Two counters give two ids. */
  lemma MatchIdInjective(competitionId: string, k1: nat, k2: nat)
    requires MatchId(competitionId, k1) == MatchId(competitionId, k2)
    ensures k1 == k2
  {
    MatchIdNumber(competitionId, k1);
    MatchIdNumber(competitionId, k2);
  }

  /** The score and summary a fixture of each status gets. */
  ghost predicate ScoresFit(m: Match, teamA: Team) {
    match m.status
    case Completed =>
      && m.scoreA.Some? && m.scoreA.value < 5
      && m.scoreB.Some? && m.scoreB.value < 5
      && m.keyEventsSummary.Some?
      && var head := FirstWord(teamA.name) + " goal ";
         |head| <= |m.keyEventsSummary.value| && m.keyEventsSummary.value[..|head|] == head
    case Live =>
      && m.scoreA.Some? && m.scoreA.value < 3
      && m.scoreB.Some? && m.scoreB.value < 3
      && m.keyEventsSummary == Some(LiveSummary)
    case Scheduled =>
      m.scoreA.None? && m.scoreB.None? && m.keyEventsSummary == Some(ScheduledSummary)
    case Postponed =>
      m.scoreA.None? && m.scoreB.None? && m.keyEventsSummary == Some(PostponedSummary)
  }

  /** Everything about the `k`-th fixture that does not depend on the draws. */
  ghost predicate Shaped(competitionId: string, teamA: Team, teamB: Team, k: nat, m: Match) {
    && m.id == MatchId(competitionId, k)
    && m.competitionId == competitionId
    && m.teamA == teamA && m.teamB == teamB
    && m.status == Statuses[k % 4]
    && m.date == MatchDates[k % 6]
    && m.time == MatchTimes[k % 4]
    && m.venue == Venues[k % 4]
    && ScoresFit(m, teamA)
  }

  /** One goal per side, at the given minutes. */
  function GoalsText(teamAName: string, teamBName: string, minuteA: nat, minuteB: nat): string {
    teamAName + " goal " + NatToString(minuteA) + "', " + teamBName + " goal " + NatToString(minuteB) + "'."
  }

  /** The sentence appended for a penalty to team A. */
  function PenaltyText(teamAName: string, minute: nat): string {
    " " + teamAName + " penalty " + NatToString(minute) + "'."
  }

  /** The text of a completed match: one goal per side with random minutes,
      and a penalty for team A when the coin draw exceeds one half. */
  function CompletedSummary(teamAName: string, teamBName: string, random: nat -> real, cursor: nat): (r: (string, nat))
    requires RandomStream(random)
    ensures var head := teamAName + " goal ";
      |head| <= |r.0| && r.0[..|head|] == head
    ensures var goals := GoalsText(teamAName, teamBName, Draw(random(cursor), 90), Draw(random(cursor + 1), 90));
      |goals| <= |r.0| && r.0[..|goals|] == goals
    ensures r.1 == cursor + 3 || r.1 == cursor + 4
    ensures r.1 == cursor + 4 <==> random(cursor + 2) > 0.5
    ensures var goals := GoalsText(teamAName, teamBName, Draw(random(cursor), 90), Draw(random(cursor + 1), 90));
      if r.1 == cursor + 4 then r.0[|goals|..] == PenaltyText(teamAName, Draw(random(cursor + 3), 90))
      else r.0 == goals
  {
    var text := GoalsText(teamAName, teamBName, Draw(random(cursor), 90), Draw(random(cursor + 1), 90));
    assert text[..|teamAName + " goal "|] == teamAName + " goal ";
    if random(cursor + 2) > 0.5 then
      var withPenalty := text + PenaltyText(teamAName, Draw(random(cursor + 3), 90));
      assert withPenalty[..|text|] == text;
      assert withPenalty[|text|..] == PenaltyText(teamAName, Draw(random(cursor + 3), 90));
      (withPenalty, cursor + 4)
    else (text, cursor + 3)
  }

  /** How many times the `k`-th fixture calls `Math.random` when its first
      call is the `cursor`-th: both scores, two goal minutes, the penalty
      coin and, when the coin comes up, the penalty minute for a completed
      match; both scores for a live one; none otherwise. */
  function DrawsUsed(k: nat, random: nat -> real, cursor: nat): nat {
    match Statuses[k % 4]
    case Completed => if random(cursor + 4) > 0.5 then 6 else 5
    case Live => 2
    case _ => 0
  }

  /** The `k`-th fixture, between `teamA` and `teamB`, drawing from
      `random` from position `cursor` on; also the position of the next draw. */
  function Fixture(competitionId: string, teamA: Team, teamB: Team, k: nat, random: nat -> real, cursor: nat): (r: (Match, nat))
    requires RandomStream(random)
    ensures r.1 == cursor + DrawsUsed(k, random, cursor)
  {
    var status := Statuses[k % 4];
    var m := Match(MatchId(competitionId, k), competitionId, MatchDates[k % 6], MatchTimes[k % 4],
                   teamA, teamB, None, None, status, Venues[k % 4], None);
    match status
    case Completed =>
      var scoreA, scoreB := Draw(random(cursor), 5), Draw(random(cursor + 1), 5);
      var (summary, next) := CompletedSummary(FirstWord(teamA.name), FirstWord(teamB.name), random, cursor + 2);
      (m.(scoreA := Some(scoreA), scoreB := Some(scoreB), keyEventsSummary := Some(summary)), next)
    case Live =>
      var scoreA, scoreB := Draw(random(cursor), 3), Draw(random(cursor + 1), 3);
      (m.(scoreA := Some(scoreA), scoreB := Some(scoreB), keyEventsSummary := Some(LiveSummary)), cursor + 2)
    case Scheduled =>
      (m.(keyEventsSummary := Some(ScheduledSummary)), cursor)
    case Postponed =>
      (m.(keyEventsSummary := Some(PostponedSummary)), cursor)
  }

  /** Each fixture carries the id, slot and venue of its counter, the status
      the counter selects, and the scores and summary that status calls for. */
  lemma FixtureShaped(competitionId: string, teamA: Team, teamB: Team, k: nat, random: nat -> real, cursor: nat)
    requires RandomStream(random)
    ensures Shaped(competitionId, teamA, teamB, k, Fixture(competitionId, teamA, teamB, k, random, cursor).0)
  {
  }

  // ---------------------------------------------------------------------
  // The whole schedule

  /** The fixtures for the pairs from the `k`-th on, when the `k`-th
      fixture makes the `cursor`-th call of `Math.random`: each fixture
      takes its counter from its place and starts drawing where the one
      before it stopped. */
  function FixturesFrom(competitionId: string, teams: seq<Team>, random: nat -> real, k: nat, cursor: nat): (ms: seq<Match>)
    requires RandomStream(random)
    ensures |ms| == if k < |Pairs(|teams|)| then |Pairs(|teams|)| - k else 0
    decreases |Pairs(|teams|)| - k
  {
    var pairs := Pairs(|teams|);
    if k >= |pairs| then []
    else
      PairsOrdered(|teams|);
      var (m, next) := Fixture(competitionId, teams[pairs[k].0], teams[pairs[k].1], k, random, cursor);
      [m] + FixturesFrom(competitionId, teams, random, k + 1, next)
  }

  /** Every fixture of the round robin, the first one drawing first. */
  function RoundRobin(competitionId: string, teams: seq<Team>, random: nat -> real): (ms: seq<Match>)
    requires RandomStream(random)
    ensures |ms| == |Pairs(|teams|)|
  {
    FixturesFrom(competitionId, teams, random, 0, 0)
  }

  /** What `createMatchesForCompetition` returns. */
  function Fixtures(competitionId: string, teams: seq<Team>, random: nat -> real): (ms: seq<Match>)
    requires RandomStream(random)
    ensures |teams| < 2 ==> ms == []
    ensures |ms| <= MaxMatches && ms <= RoundRobin(competitionId, teams, random)
    ensures |teams| >= 2 ==> |ms| == Min(|Pairs(|teams|)|, MaxMatches)
  {
    if |teams| < 2 then []
    else
      var all := RoundRobin(competitionId, teams, random);
      all[..Min(|all|, MaxMatches)]
  }

  /** `createMatchesForCompetition`: no fixtures for fewer than two teams,
      otherwise the round robin built by the nested loops, cut to its first
      `MaxMatches` fixtures. */
  method CreateMatchesForCompetition(competitionId: string, teams: seq<Team>, random: nat -> real) returns (result: seq<Match>)
    requires RandomStream(random)
    ensures result == Fixtures(competitionId, teams, random)
  {
    var matches: seq<Match> := [];
    if |teams| < 2 {
      return matches;
    }
    matches := BuildSchedule(competitionId, teams, random);
    result := matches[..Min(|matches|, MaxMatches)];
  }

  /** `matches` are the fixtures before the `counter`-th, and the rest of the
      round robin is what the loops still build from `cursor` on. */
  ghost predicate BuiltSoFar(competitionId: string, teams: seq<Team>, random: nat -> real,
                             matches: seq<Match>, counter: nat, cursor: nat)
    requires RandomStream(random)
  {
    matches + FixturesFrom(competitionId, teams, random, counter, cursor) == RoundRobin(competitionId, teams, random)
  }

  /** The outer loop: one row of pairings per team, the counter and the draw
      cursor carried from row to row. */
  method BuildSchedule(competitionId: string, teams: seq<Team>, random: nat -> real) returns (matches: seq<Match>)
    requires RandomStream(random)
    ensures matches == RoundRobin(competitionId, teams, random)
  {
    matches := [];
    var matchCounter: nat := 0;
    var cursor: nat := 0;
    for i: nat := 0 to |teams|
      invariant matchCounter == |PairsBefore(|teams|, i)|
      invariant BuiltSoFar(competitionId, teams, random, matches, matchCounter, cursor)
    {
      matches, matchCounter, cursor := BuildRow(competitionId, teams, i, random, matches, matchCounter, cursor);
    }
    assert FixturesFrom(competitionId, teams, random, matchCounter, cursor) == [];
  }

  /** The inner loop: the fixtures of `teams[i]` against every later team. */
  method BuildRow(competitionId: string, teams: seq<Team>, i: nat, random: nat -> real,
                  matches: seq<Match>, matchCounter: nat, cursor: nat)
    returns (matches': seq<Match>, matchCounter': nat, cursor': nat)
    requires RandomStream(random) && i < |teams| && matchCounter == |PairsBefore(|teams|, i)|
    requires BuiltSoFar(competitionId, teams, random, matches, matchCounter, cursor)
    ensures matchCounter' == |PairsBefore(|teams|, i + 1)|
    ensures BuiltSoFar(competitionId, teams, random, matches', matchCounter', cursor')
  {
    matches', matchCounter', cursor' := matches, matchCounter, cursor;
    for j: nat := i + 1 to |teams|
      invariant matchCounter' == |PairsBefore(|teams|, i)| + (j - i - 1)
      invariant BuiltSoFar(competitionId, teams, random, matches', matchCounter', cursor')
    {
      matches', cursor' := PushFixture(competitionId, teams, i, j, random, matches', matchCounter', cursor');
      matchCounter' := matchCounter' + 1;
    }
  }

  /** The body of the inner loop: the fixture for (i, j) pushed onto `matches`. */
  method PushFixture(competitionId: string, teams: seq<Team>, i: nat, j: nat, random: nat -> real,
                     matches: seq<Match>, matchCounter: nat, cursor: nat)
    returns (matches': seq<Match>, cursor': nat)
    requires RandomStream(random) && i < j < |teams|
    requires matchCounter == |PairsBefore(|teams|, i)| + (j - i - 1)
    requires BuiltSoFar(competitionId, teams, random, matches, matchCounter, cursor)
    ensures BuiltSoFar(competitionId, teams, random, matches', matchCounter + 1, cursor')
  {
    NextPair(|teams|, i, j, matchCounter);
    var m;
    m, cursor' := BuildMatch(competitionId, teams[i], teams[j], matchCounter, random, cursor);
    matches' := matches + [m];
    assert FixturesFrom(competitionId, teams, random, matchCounter, cursor)
        == [m] + FixturesFrom(competitionId, teams, random, matchCounter + 1, cursor');
    assert matches' + FixturesFrom(competitionId, teams, random, matchCounter + 1, cursor')
        == matches + FixturesFrom(competitionId, teams, random, matchCounter, cursor);
  }

  /** The pairs visited before row `i` open every later list of pairs. */
  lemma {:induction false} PairsBeforePrefix(n: nat, i: nat, i2: nat, k: nat)
    requires i <= i2 && k < |PairsBefore(n, i)|
    ensures k < |PairsBefore(n, i2)| && PairsBefore(n, i2)[k] == PairsBefore(n, i)[k]
  {
    if i < i2 {
      PairsBeforePrefix(n, i, i2 - 1, k);
      assert PairsBefore(n, i2) == PairsBefore(n, i2 - 1) + Row(i2 - 1, n);
    }
  }

  /** The pair the counter reaches at (i, j) is (i, j). */
  lemma NextPair(n: nat, i: nat, j: nat, k: nat)
    requires i < j < n && k == |PairsBefore(n, i)| + (j - i - 1)
    ensures k < |Pairs(n)| && Pairs(n)[k] == (i, j)
  {
    var p, row := PairsBefore(n, i), Row(i, n);
    assert PairsBefore(n, i + 1) == p + row;
    assert (p + row)[k] == row[j - i - 1];
    PairsBeforePrefix(n, i + 1, n, k);
  }

  /** One fixture, step by step: the status from the counter, the draws
      the status calls for, then the match record. */
  method BuildMatch(competitionId: string, teamA: Team, teamB: Team, matchCounter: nat, random: nat -> real, cursor: nat)
    returns (m: Match, next: nat)
    requires RandomStream(random)
    ensures (m, next) == Fixture(competitionId, teamA, teamB, matchCounter, random, cursor)
  {
    var matchStatus := Statuses[matchCounter % |Statuses|];
    var scoreA: Option<nat>, scoreB: Option<nat>, keyEventsSummary: Option<string> := None, None, None;
    next := cursor;
    if matchStatus == Completed {
      scoreA := Some(Draw(random(next), 5));
      scoreB := Some(Draw(random(next + 1), 5));
      var teamAName := FirstWord(teamA.name);
      var teamBName := FirstWord(teamB.name);
      var summary := CompletedSummary(teamAName, teamBName, random, next + 2);
      keyEventsSummary := Some(summary.0);
      next := summary.1;
    } else if matchStatus == Live {
      scoreA := Some(Draw(random(next), 3));
      scoreB := Some(Draw(random(next + 1), 3));
      next := next + 2;
      keyEventsSummary := Some(LiveSummary);
    } else if matchStatus == Scheduled {
      keyEventsSummary := Some(ScheduledSummary);
    } else {
      keyEventsSummary := Some(PostponedSummary);
    }
    m := Match(MatchId(competitionId, matchCounter), competitionId, MatchDates[matchCounter % |MatchDates|],
               MatchTimes[matchCounter % |MatchTimes|], teamA, teamB, scoreA, scoreB, matchStatus,
               Venues[matchCounter % |Venues|], keyEventsSummary);
  }

  // ---------------------------------------------------------------------
  // Properties of the generated schedule

  /** The fixtures from the `k0`-th on are shaped after their counters and
      pairs, wherever their draws start. */
  lemma {:induction false} FixturesFromShaped(competitionId: string, teams: seq<Team>, random: nat -> real, k0: nat, cursor: nat)
    requires RandomStream(random)
    ensures ValidPairs(Pairs(|teams|), |teams|)
    ensures forall k :: k0 <= k < |Pairs(|teams|)| ==>
      Shaped(competitionId, teams[Pairs(|teams|)[k].0], teams[Pairs(|teams|)[k].1], k,
             FixturesFrom(competitionId, teams, random, k0, cursor)[k - k0])
    decreases |Pairs(|teams|)| - k0
  {
    var pairs := Pairs(|teams|);
    PairsOrdered(|teams|);
    if k0 < |pairs| {
      var next := FirstFixtureShaped(competitionId, teams, random, k0, cursor);
      FixturesFromShaped(competitionId, teams, random, k0 + 1, next);
      var rest := FixturesFrom(competitionId, teams, random, k0 + 1, next);
      var ms := FixturesFrom(competitionId, teams, random, k0, cursor);
      forall k | k0 < k < |pairs|
        ensures Shaped(competitionId, teams[pairs[k].0], teams[pairs[k].1], k, ms[k - k0])
      {
        assert ms[k - k0] == rest[k - (k0 + 1)];
      }
    }
  }

  /** The first fixture from pair `k0` on is shaped after `k0`, and the rest
      start drawing at `next`. */
  lemma FirstFixtureShaped(competitionId: string, teams: seq<Team>, random: nat -> real, k0: nat, cursor: nat)
      returns (next: nat)
    requires RandomStream(random) && k0 < |Pairs(|teams|)|
    ensures ValidPairs(Pairs(|teams|), |teams|)
    ensures var ms := FixturesFrom(competitionId, teams, random, k0, cursor);
      && Shaped(competitionId, teams[Pairs(|teams|)[k0].0], teams[Pairs(|teams|)[k0].1], k0, ms[0])
      && ms[1..] == FixturesFrom(competitionId, teams, random, k0 + 1, next)
  {
    var pairs := Pairs(|teams|);
    PairsOrdered(|teams|);
    var f := Fixture(competitionId, teams[pairs[k0].0], teams[pairs[k0].1], k0, random, cursor);
    FixtureShaped(competitionId, teams[pairs[k0].0], teams[pairs[k0].1], k0, random, cursor);
    next := f.1;
    var ms := FixturesFrom(competitionId, teams, random, k0, cursor);
    assert ms == [f.0] + FixturesFrom(competitionId, teams, random, k0 + 1, next);
  }

  /** Fewer than two teams give no match; otherwise the `k`-th match is the
      `k`-th pair of the round robin, at most six of them are kept, and
      each carries the status, slot, venue and score range of its counter. */
  lemma FixturesShape(competitionId: string, teams: seq<Team>, random: nat -> real)
    requires RandomStream(random)
    ensures var r := Fixtures(competitionId, teams, random);
      && (|teams| < 2 ==> r == [])
      && |r| == Min(|teams| * (|teams| - 1) / 2, MaxMatches) <= |Pairs(|teams|)|
      && ValidPairs(Pairs(|teams|), |teams|)
      && forall k :: 0 <= k < |r| ==>
           Shaped(competitionId, teams[Pairs(|teams|)[k].0], teams[Pairs(|teams|)[k].1], k, r[k])
  {
    PairsCount(|teams|);
    PairsOrdered(|teams|);
    if |teams| < 2 {
      assert |teams| * (|teams| - 1) == 0;
    } else {
      FixturesFromShaped(competitionId, teams, random, 0, 0);
    }
  }

  /** Match ids are unique within a competition. */
  lemma FixtureIdsDistinct(competitionId: string, teams: seq<Team>, random: nat -> real)
    requires RandomStream(random)
    ensures var r := Fixtures(competitionId, teams, random);
      forall a, b :: 0 <= a < b < |r| ==> r[a].id != r[b].id
  {
    var r := Fixtures(competitionId, teams, random);
    FixturesShape(competitionId, teams, random);
    forall a, b | 0 <= a < b < |r| ensures r[a].id != r[b].id {
      if r[a].id == r[b].id {
        MatchIdInjective(competitionId, a, b);
      }
    }
  }

  /** Both sides of every fixture come from `teams`, so the fixtures can be
      handed to `calculateStandings` with the same teams; and a fixture
      counts towards the table exactly when it is completed. */
  lemma FixturesRegistered(competitionId: string, teams: seq<Team>, random: nat -> real)
    requires RandomStream(random)
    ensures var r := Fixtures(competitionId, teams, random);
      && (forall m :: m in r ==> m.teamA in teams && m.teamB in teams)
      && (forall m :: m in r ==> (Standings.Counts(m) <==> m.status == Completed))
      && Standings.Registered(teams, r)
  {
    var r := Fixtures(competitionId, teams, random);
    FixturesShape(competitionId, teams, random);
    forall m | m in r
      ensures m.teamA in teams && m.teamB in teams
      ensures Standings.Counts(m) <==> m.status == Completed
    {
      var k :| 0 <= k < |r| && r[k] == m;
      var p := Pairs(|teams|)[k];
      assert Shaped(competitionId, teams[p.0], teams[p.1], k, m);
    }
    forall m | m in r && Standings.Counts(m)
      ensures m.teamA.id in Standings.TeamIds(teams) && m.teamB.id in Standings.TeamIds(teams)
    {
    }
  }

  // ---------------------------------------------------------------------
  // Players

  /** `String.fromCharCode(65 + i)`, `A` for the first player. */
  function PlayerLetter(i: nat): char
    requires i < 0xD800 - 65
  {
    (65 + i) as char
  }

  /** `<teamIdBase>-player-<i + 1>`: the jersey number reads back from the id. */
  function PlayerId(teamIdBase: string, i: nat): (id: string)
    ensures var prefix := teamIdBase + "-player-";
      |prefix| < |id| && id[..|prefix|] == prefix && ParseNat(id[|prefix|..]) == Some(i + 1)
  {
    var prefix := teamIdBase + "-player-";
    var id := prefix + NatToString(i + 1);
    assert id[|prefix|..] == NatToString(i + 1);
    ParseNatToString(i + 1);
    id
  }

  /** The player at position `i` of `generatePlayers`: the id carries the
      jersey number `i + 1`, the name the `i`-th letter from `A` and the
      upper-cased team id, and the position cycles through the four roles. */
  function PlayerAt(teamIdBase: string, i: nat): (p: Player)
    requires i < 0xD800 - 65
    ensures p.id == PlayerId(teamIdBase, i) && p.jerseyNumber == Some(i + 1)
    ensures p.name == "Player " + [PlayerLetter(i)] + " (" + UpperAscii(teamIdBase) + ")"
    ensures 8 <= |p.name| && p.name[..7] == "Player " && p.name[7] == PlayerLetter(i)
    ensures p.position == Some(Positions[i % 4])
  {
    var name := "Player " + [PlayerLetter(i)] + " (" + UpperAscii(teamIdBase) + ")";
    assert name[..7] == "Player " && name[7] == PlayerLetter(i);
    Player(PlayerId(teamIdBase, i), name, Some(i + 1), Some(Positions[i % |Positions|]))
  }

  /** `generatePlayers(teamIdBase, numPlayers)`: `numPlayers` players with
      distinct ids and names, jersey numbers 1, 2, ..., `numPlayers`, and
      positions cycling through the four roles. */
  function GeneratePlayers(teamIdBase: string, numPlayers: nat): (ps: seq<Player>)
    requires numPlayers <= 0xD800 - 65
    ensures |ps| == numPlayers
    ensures forall i :: 0 <= i < numPlayers ==> ps[i] == PlayerAt(teamIdBase, i)
    ensures forall a, b :: 0 <= a < b < numPlayers ==>
      ps[a].id != ps[b].id && ps[a].name != ps[b].name && ps[a].jerseyNumber != ps[b].jerseyNumber
    ensures forall i :: 0 <= i < numPlayers ==>
      ps[i].jerseyNumber == Some(i + 1) && ps[i].position == Some(Positions[i % 4])
  {
    seq(numPlayers, i requires 0 <= i < numPlayers => PlayerAt(teamIdBase, i))
  }

  // ---------------------------------------------------------------------
  // Matches of one team

  /** `flatMap(comp => comp.matches)` over the competitions' match lists. */
  function AllMatches(competitions: seq<seq<Match>>): (ms: seq<Match>)
    ensures forall m :: m in ms <==> exists c :: c in competitions && m in c
  {
    if |competitions| == 0 then []
    else
      var rest := AllMatches(competitions[1..]);
      assert forall c :: c in competitions[1..] ==> c in competitions;
      assert forall c :: c in competitions ==> c == competitions[0] || c in competitions[1..];
      competitions[0] + rest
  }

  predicate Involves(m: Match, teamId: string) {
    m.teamA.id == teamId || m.teamB.id == teamId
  }

  /** `filter(match => match.teamA.id === teamId || match.teamB.id === teamId)`. */
  function FilterTeam(ms: seq<Match>, teamId: string): (r: seq<Match>)
    ensures |r| <= |ms|
    ensures forall m :: m in r ==> m in ms && Involves(m, teamId)
  {
    if |ms| == 0 then []
    else (if Involves(ms[0], teamId) then [ms[0]] else []) + FilterTeam(ms[1..], teamId)
  }

  /** `getMatchesByTeamId(teamId)` over the given competitions. */
  function MatchesOfTeam(competitions: seq<seq<Match>>, teamId: string): (ms: seq<Match>)
    ensures forall m :: m in ms ==> Involves(m, teamId) && exists c :: c in competitions && m in c
  {
    FilterTeam(AllMatches(competitions), teamId)
  }

  /** The filter keeps each match the team plays in, as many times as it
      occurs, and nothing else. */
  lemma {:induction false} FilterTeamCount(ms: seq<Match>, teamId: string, m: Match)
    ensures multiset(FilterTeam(ms, teamId))[m] == if Involves(m, teamId) then multiset(ms)[m] else 0
  {
    if |ms| > 0 {
      FilterTeamCount(ms[1..], teamId, m);
      assert ms == [ms[0]] + ms[1..];
    }
  }

  /** The filter keeps the order of the matches. */
  lemma {:induction false} FilterTeamConcat(a: seq<Match>, b: seq<Match>, teamId: string)
    ensures FilterTeam(a + b, teamId) == FilterTeam(a, teamId) + FilterTeam(b, teamId)
  {
    if |a| > 0 {
      FilterTeamConcat(a[1..], b, teamId);
      assert (a + b)[1..] == a[1..] + b;
    } else {
      assert a + b == b;
    }
  }

  /** A match is listed for a team exactly when the team plays in it and it
      belongs to one of the competitions. */
  lemma MatchesOfTeamMembers(competitions: seq<seq<Match>>, teamId: string, m: Match)
    ensures m in MatchesOfTeam(competitions, teamId) <==>
      Involves(m, teamId) && exists c :: c in competitions && m in c
  {
    var all := AllMatches(competitions);
    FilterTeamCount(all, teamId, m);
    assert m in MatchesOfTeam(competitions, teamId) <==> multiset(MatchesOfTeam(competitions, teamId))[m] > 0;
    assert m in all <==> multiset(all)[m] > 0;
  }

  /** Adding a competition appends its matches of the team at the end. */
  lemma MatchesOfTeamAppend(competitions: seq<seq<Match>>, c: seq<Match>, teamId: string)
    ensures MatchesOfTeam(competitions + [c], teamId) == MatchesOfTeam(competitions, teamId) + FilterTeam(c, teamId)
  {
    AllMatchesAppend(competitions, c);
    FilterTeamConcat(AllMatches(competitions), c, teamId);
  }

  lemma {:induction false} AllMatchesAppend(competitions: seq<seq<Match>>, c: seq<Match>)
    ensures AllMatches(competitions + [c]) == AllMatches(competitions) + c
  {
    if |competitions| == 0 {
      assert competitions + [c] == [c];
      assert [c][1..] == [];
    } else {
      assert (competitions + [c])[1..] == competitions[1..] + [c];
      AllMatchesAppend(competitions[1..], c);
    }
  }
}
