# Match Maestro — a Dafny model of the tournament core

Match Maestro is a Next.js site for hockey competitions. Its logic lives in three places, and this project models each of them:

- **The mock data layer** (`src/data/mock.ts`):
  - `createMatchesForCompetition` generates a round-robin schedule of fixtures, cut to six matches. Each fixture gets a status, slot, venue, scores and a key-events summary from its counter and from `Math.random`.
  - `calculateStandings` turns teams and matches into a league table: wins 3, draws 1, losses 0. The table is sorted by points, then goal difference, then goals for.
  - `generatePlayers` builds a roster.
  - `getMatchesByTeamId` filters the matches of one team.
- **The main layout** (`src/components/layout/main-layout.tsx`):
  - `isActive` decides which sidebar entry is highlighted for the current path.
  - The header shows the label of the first active entry, or "Match Maestro".
- **The match schedule view** (`src/components/matches/match-schedule-display.tsx`):
  - the status badge;
  - the score shown between the teams;
  - the "+3 / +1 / +0" points line of a completed match;
  - the score string passed to the storyteller;
  - the empty state.

The files:

- `types.dfy` (`Types`): the records of `src/types/index.ts` that the core reads (the fields left out are listed below).
  - `Team`, `Player`, `Match` and `StandingEntry` are datatypes.
  - The four match states form `MatchStatus`.
  - Optional fields become `Option`.
- `text.dfy` (`Text`): the JavaScript string operations the core uses:
  - `${n}` for a non-negative integer, and its inverse;
  - `split` on one character;
  - the first word of a name;
  - ASCII upper-casing.
- `standings.dfy` (`Standings`): `calculateStandings`.
  - `CalculateStandings` is the imperative procedure. It fills a map, folds each counted match into it, then lists, recomputes and sorts.
  - Its result is proved equal to `StandingsTable`, the same computation stated as functions.
  - The map is a Dafny `map`. The rows' in-place `++` becomes replacement of the entry.
- `ranking.dfy` (`Ranking`): the comparator given to `Array.prototype.sort`.
  - `Rank` is a stable insertion sort.
  - `RankIsTheStableSort` proves that every stable sort with this comparator returns `Rank`'s result, so the table is fully determined.
- `standings_lemmas.dfy` (`StandingsLemmas`): what every standings table satisfies:
  - one row per distinct team id;
  - rows in first-insertion order before sorting, and the last team's name and logo for a duplicated id;
  - `played = won + drawn + lost` and `points = 3·won + drawn`;
  - table-wide conservation of goals, results and points;
  - indifference to matches that do not count;
  - the sort order and its stability.
- `fixtures.dfy` (`Fixtures`): `createMatchesForCompetition` as nested loops (`CreateMatchesForCompetition`, `BuildSchedule`, `BuildRow`, `PushFixture`, `BuildMatch`).
  - Each loop is proved against `FixturesFrom` / `Fixtures`.
  - `Math.random` is a parameter `random: nat -> real`, where the n-th call returns `random(n)` in [0, 1).
  - The loop threads the index of the next call.
  - The file also holds `generatePlayers` and `getMatchesByTeamId`.
- `navigation.dfy` (`Navigation`): `isActive`, the menu, and the header title.
- `schedule.dfy` (`MatchDisplay`): the match schedule view.

## Model

| member | source | states |
|---|---|---|
| `Text.NatToString` | src/data/mock.ts:85 | the decimal rendering is non-empty, all digits, with no leading zero |
| `Text.ParseNatToString` | src/data/mock.ts:85 | reading the rendering of `n` back gives `n` |
| `Text.NatToStringInjective` | src/data/mock.ts:85 | different numbers render differently |
| `Text.Split` | src/components/layout/main-layout.tsx:45 | `split` yields at least one piece and no piece contains the separator |
| `Text.SplitAt` | src/components/layout/main-layout.tsx:45-46 | splitting `a + sep + b` gives the pieces of `a` followed by those of `b` |
| `Text.SplitPlain` | src/components/layout/main-layout.tsx:45-46 | a string without the separator splits into itself |
| `Text.FirstWord` | src/data/mock.ts:70-71 | `name.split(' ')[0]` is the prefix of the name up to the first space, and contains no space |
| `Text.FirstPiecePrefix` | src/data/mock.ts:70-71 | the first piece of a split is a prefix followed by the separator or the end |
| `Text.UpperAscii` | src/data/mock.ts:8 | same length; each ASCII lower-case letter is shifted to upper case and every other character is kept |
| `Ranking.Compare` | src/data/mock.ts:156-164 | negative exactly when `a` outranks `b` (points, then goal difference, then goals for), positive exactly when `b` outranks `a`, and zero exactly when all three keys are equal |
| `Ranking.Insert` | src/data/mock.ts:156-164 | inserting adds exactly the new row (multiset) |
| `Ranking.Rank` | src/data/mock.ts:156-164 | the sorted table is ordered by the comparator and is a permutation of its input |
| `Ranking.InsertSorted` | src/data/mock.ts:156-164 | insertion into an ordered table keeps it ordered |
| `Ranking.InsertTied` | src/data/mock.ts:156-164 | insertion keeps the relative order of rows tied on all keys |
| `Ranking.RankStable` | src/data/mock.ts:156-164 | the sort is stable: rows tied on all three keys keep their input order |
| `Ranking.StableSortUnique` | src/data/mock.ts:156-164 | two ordered tables with the same tied classes in the same orders are equal |
| `Ranking.RankIsTheStableSort` | src/data/mock.ts:156-164 | any ordered, stable rearrangement of the rows equals `Rank`, so the runtime's stable `sort` yields exactly this table |
| `Ranking.RankOfSorted` | src/data/mock.ts:156-164 | an already ordered table is left unchanged |
| `Standings.LastWithId` | src/data/mock.ts:106-120 | the row kept for an id carries a team with that id, and no later team in `teams` has it: the last such team wins, as `Map.set` replaces the value |
| `Standings.LastIndex` | src/data/mock.ts:106-120 | the position of a team with the id, after which no team carries it |
| `Standings.InsertionOrder` | src/data/mock.ts:104-120 | the map's key order holds each registered id exactly once, and only registered ids |
| `Standings.InitialTable` | src/data/mock.ts:106-120 | the registered map has exactly the teams' ids as keys |
| `Standings.Credit` | src/data/mock.ts:130-150 | one side's row gains one game; goals for and goals against grow by the goals scored and conceded; exactly one of won, drawn, lost grows by one — won exactly when more were scored, drawn exactly on equal goals, lost exactly when fewer; points grow by 3 for the win and 1 for the draw; goal difference, id, name and logo stay, and `played = won + drawn + lost`, `points = 3·won + drawn` are kept |
| `Standings.ApplyMatch` | src/data/mock.ts:122-151 | recording a match never adds or removes a team |
| `StandingsLemmas.ApplyMatchRows` | src/data/mock.ts:122-151 | a match that does not count leaves the table as it was; a counted one replaces team A's row by its credit for A's score and team B's by its credit for B's score (both in turn when the two sides are one team), and leaves every other row as it was |
| `Standings.Tally` | src/data/mock.ts:122-151 | folding the matches never adds or removes a team |
| `Standings.Values` | src/data/mock.ts:153 | `Array.from(map.values())` lists, in key order, the row of each key |
| `Standings.WithGoalDifference` | src/data/mock.ts:153-156 | each row keeps everything but its goal difference, which becomes goals for minus goals against |
| `Standings.StandingsTable` | src/data/mock.ts:103-165 | the table has one row per registered id, is ordered by the comparator, and is a permutation of the unsorted rows |
| `Standings.CalculateStandings` | src/data/mock.ts:103-165 | the procedure returns `StandingsTable(teams, matches)` whenever every side of a counted match is registered |
| `Standings.RegisterTeams` | src/data/mock.ts:106-120 | the first `forEach` produces the zero-row map and its insertion order |
| `Standings.RegisterStep` | src/data/mock.ts:106-120 | registering one more team overwrites its row and appends its id only when new |
| `Standings.RecordMatches` | src/data/mock.ts:122-151 | the second `forEach` leaves the map equal to the fold of the matches |
| `Standings.RecordMatch` | src/data/mock.ts:123-150 | one iteration: the map after the increments equals `ApplyMatch` of the map before |
| `StandingsLemmas.CountedOnly` | src/data/mock.ts:123-125 | keeps exactly the completed matches that have both scores |
| `StandingsLemmas.InitialTableRow` | src/data/mock.ts:106-120 | a duplicated id starts with a zero row carrying the last such team's name and logo |
| `StandingsLemmas.InsertionOrderFirstSeen` | src/data/mock.ts:106-120 | ids are ordered by their first appearance in `teams` |
| `StandingsLemmas.InitialTableWellFormed` | src/data/mock.ts:106-120 | every registered row is all zeros and filed under its own id |
| `StandingsLemmas.ApplyMatchWellFormed` | src/data/mock.ts:127-150 | one match keeps every row's accounting identities and its team's id, name and logo |
| `StandingsLemmas.CreditGain` | src/data/mock.ts:133-149 | crediting a row adds to each of played, won, drawn, lost, goals for, goals against and points exactly that side's gain for the score |
| `StandingsLemmas.TallyWellFormed` | src/data/mock.ts:122-151 | all matches together keep the identities and the team identities |
| `StandingsLemmas.TallyCountedOnly` | src/data/mock.ts:122-125 | the fold over the matches equals the fold over the counted ones |
| `StandingsLemmas.StandingsIgnoreUncounted` | src/data/mock.ts:122-125 | the table depends only on the counted matches |
| `StandingsLemmas.StandingsUncountedInserted` | src/data/mock.ts:122-125 | inserting a non-counting match anywhere leaves the table unchanged |
| `StandingsLemmas.ApplyMatchColumn` | src/data/mock.ts:127-150 | a counted match changes each column total by both sides' credit; any other match changes nothing |
| `StandingsLemmas.TallyColumn` | src/data/mock.ts:122-151 | the fold changes each column total by the matches' summed credit |
| `StandingsLemmas.ColumnGains` | src/data/mock.ts:130-150 | per counted match: 2 appearances, all goals on both sides, 1 win and 1 loss or 2 draws, 3 points with a winner and 2 without |
| `StandingsLemmas.WithGoalDifferenceTotal` | src/data/mock.ts:153-156 | recomputing the goal difference leaves the counting columns' totals unchanged |
| `StandingsLemmas.InsertTotal` | src/data/mock.ts:156-164 | insertion adds the inserted row's value to a column total |
| `StandingsLemmas.RankTotal` | src/data/mock.ts:156-164 | sorting keeps every column total |
| `StandingsLemmas.StandingsTotals` | src/data/mock.ts:103-165 | across the table: goals for = goals against = counted goals; wins = losses = decisive matches; draws = 2 × drawn matches; played = 2 × counted matches; points = 3 × decisive + 2 × drawn |
| `StandingsLemmas.InsertDistinct` | src/data/mock.ts:156-164 | inserting a row with a new id keeps the ids distinct |
| `StandingsLemmas.RankDistinct` | src/data/mock.ts:156-164 | sorting keeps the ids distinct |
| `StandingsLemmas.UnrankedRows` | src/data/mock.ts:153-156 | before sorting, row `i` belongs to the `i`-th id in insertion order and satisfies the identities with the last team's name and logo |
| `StandingsLemmas.RankMembers` | src/data/mock.ts:156-164 | sorting keeps the number of rows and exactly the same rows |
| `StandingsLemmas.RankRows` | src/data/mock.ts:156-164 | sorting keeps distinct ids, the set of ids and every row's properties |
| `StandingsLemmas.KeyedRows` | src/data/mock.ts:153 | rows listed by a duplicate-free key order carry exactly those keys, once each |
| `StandingsLemmas.UnrankedIds` | src/data/mock.ts:104-153 | before sorting, every registered id appears exactly once |
| `StandingsLemmas.StandingsRows` | src/data/mock.ts:103-165 | the table has one row per distinct team id; each row has `played = won + drawn + lost`, `points = 3·won + drawn`, the recomputed goal difference, and the last such team's name and logo |
| `StandingsLemmas.StandingsOrdered` | src/data/mock.ts:156-164 | the table is ordered by points, then goal difference, then goals for (all descending); it is a permutation of the unsorted rows and keeps the insertion order of fully tied rows |
| `StandingsLemmas.ZeroRowsUnchanged` | src/data/mock.ts:153-155 | filling in the goal difference leaves all-zero rows unchanged |
| `StandingsLemmas.ZeroRowsStay` | src/data/mock.ts:153-164 | all-zero rows come out in their input order |
| `StandingsLemmas.StandingsWithoutResults` | src/data/mock.ts:103-165 | with no counted match, the table is the zero rows in insertion order |
| `StandingsLemmas.RegisterTwo` | src/data/mock.ts:106-120 | two teams with different ids register as two zero rows, in order |
| `StandingsLemmas.PairRegistered` | src/data/mock.ts:127-128 | a match between two teams may be recorded in the table of those two teams |
| `StandingsLemmas.WinnerLeadsTally` | src/data/mock.ts:122-151 | after a 3-1 win, the winner's row has 1 played, 1 won, 3-1 goals and 3 points, and the loser's 1 played, 1 lost, 1-3 goals and 0 points |
| `StandingsLemmas.WinnerLeadsValues` | src/data/mock.ts:153 | after the 3-1 win, the registered rows in insertion order are the winner's then the loser's, before goal differences are filled in |
| `StandingsLemmas.WinnerLeadsRows` | src/data/mock.ts:153-155 | after the 3-1 win, the unsorted rows carry goal differences +2 and -2 |
| `StandingsLemmas.WinnerLeadsExample` | src/data/mock.ts:103-165 | the table after a 3-1 win lists the winner first with 3 points and +2, then the loser with 0 points and -2 |
| `Fixtures.Draw` | src/data/mock.ts:68 | `Math.floor(Math.random() * b)` is below `b` |
| `Fixtures.Row` | src/data/mock.ts:63 | the inner loop for `i` visits `(i, j)` for `j = i+1 … n-1` in order |
| `Fixtures.PairsBeforeCount` | src/data/mock.ts:62-63 | the first `i` rows hold `i(2n-i-1)/2` pairs |
| `Fixtures.PairsCount` | src/data/mock.ts:62-63 | the loops visit `n(n-1)/2` pairs |
| `Fixtures.PairsBeforeOrdered` | src/data/mock.ts:62-63 | the pairs before row `i` are valid, start before `i`, and come in strictly increasing row-major order |
| `Fixtures.PairsOrdered` | src/data/mock.ts:62-63 | every pair is `i < j < n`, and the pairs come in strictly increasing row-major order |
| `Fixtures.PairsBeforeComplete` | src/data/mock.ts:62-63 | each pair with first position below `i` is visited before row `i` |
| `Fixtures.PairsComplete` | src/data/mock.ts:62-63 | every pair `x < y < n` is visited |
| `Fixtures.MatchIdNumber` | src/data/mock.ts:85 | the id is `match-<competitionId>-` followed by digits that read back as the counter |
| `Fixtures.MatchIdInjective` | src/data/mock.ts:85 | different counters give different ids |
| `Fixtures.CompletedSummary` | src/data/mock.ts:70-73 | the summary starts with the two goal sentences built from the first two draws; the third draw is the penalty coin: above one half, exactly then, the penalty sentence with the fourth draw's minute follows and four draws are used, otherwise the summary is the goal sentences alone and three draws are used |
| `Fixtures.Fixture` | src/data/mock.ts:64-96 | a fixture uses six or five draws when completed (the penalty coin decides), two when live, none otherwise |
| `Fixtures.FixtureShaped` | src/data/mock.ts:64-96 | fixture `k` has id `match-<cid>-<k>`, status `statuses[k%4]`, date `k%6`, time and venue `k%4`, scores below 5 when completed and below 3 when live, none otherwise, and its status's summary |
| `Fixtures.FixturesFrom` | src/data/mock.ts:61-99 | from pair `k` on there is one fixture per remaining pair |
| `Fixtures.RoundRobin` | src/data/mock.ts:61-99 | there is one fixture per pair |
| `Fixtures.Fixtures` | src/data/mock.ts:45-101 | no match for fewer than two teams; otherwise the first `min(n(n-1)/2, 6)` fixtures of the round robin, a prefix of it |
| `Fixtures.CreateMatchesForCompetition` | src/data/mock.ts:45-101 | the procedure returns `Fixtures(...)`: no match for fewer than two teams, otherwise the first six of the round robin |
| `Fixtures.BuildSchedule` | src/data/mock.ts:61-99 | the nested loops build exactly the round robin |
| `Fixtures.BuildRow` | src/data/mock.ts:63-98 | one pass of the inner loop advances the counter by the row's length and keeps the built prefix of the round robin |
| `Fixtures.PushFixture` | src/data/mock.ts:84-97 | pushing fixture `(i, j)` with the current counter extends the built prefix by one |
| `Fixtures.PairsBeforePrefix` | src/data/mock.ts:62-63 | later rows only append pairs |
| `Fixtures.NextPair` | src/data/mock.ts:62-97 | the counter at `(i, j)` indexes pair `(i, j)` |
| `Fixtures.BuildMatch` | src/data/mock.ts:64-96 | the if-chain body builds `Fixture(...)` and returns the next draw index |
| `Fixtures.FixturesFromShaped` | src/data/mock.ts:61-99 | every fixture from pair `k0` on is shaped after its counter and pair |
| `Fixtures.FixturesShape` | src/data/mock.ts:45-101 | no match for fewer than two teams; `min(n(n-1)/2, 6)` matches; match `k` is between the teams of pair `k` and is shaped after `k` |
| `Fixtures.FixtureIdsDistinct` | src/data/mock.ts:85 | match ids are unique within a competition |
| `Fixtures.FixturesRegistered` | src/data/mock.ts:89-90 | both sides of every fixture are among `teams`, so the fixtures meet `calculateStandings`' precondition; a fixture counts exactly when completed |
| `Fixtures.PlayerId` | src/data/mock.ts:7 | the player id is `<teamIdBase>-player-` followed by digits that read back as the jersey number |
| `Fixtures.PlayerAt` | src/data/mock.ts:6-11 | player `i` has the id of jersey number `i + 1`, that jersey number, the name `Player <letter> (<TEAM ID>)` with the `i`-th letter from `A` and the upper-cased team id, and position `i % 4` of the four roles |
| `Fixtures.GeneratePlayers` | src/data/mock.ts:4-12 | `numPlayers` players with distinct ids, distinct names and distinct jersey numbers; jersey numbers run 1…n and positions cycle through the four roles |
| `Fixtures.AllMatches` | src/data/mock.ts:242 | `flatMap` holds exactly the matches of the competitions |
| `Fixtures.FilterTeam` | src/data/mock.ts:243 | the filter keeps only matches of the input in which the team plays, and never more than the input |
| `Fixtures.MatchesOfTeam` | src/data/mock.ts:241-244 | every returned match is in some competition and the team plays in it |
| `Fixtures.FilterTeamCount` | src/data/mock.ts:243 | the filter keeps each match of the team with its multiplicity and drops every other |
| `Fixtures.FilterTeamConcat` | src/data/mock.ts:243 | the filter distributes over concatenation, so order is preserved |
| `Fixtures.MatchesOfTeamMembers` | src/data/mock.ts:241-244 | a match is returned exactly when it is in some competition and the team plays in it |
| `Fixtures.MatchesOfTeamAppend` | src/data/mock.ts:241-244 | a further competition appends its filtered matches |
| `Fixtures.AllMatchesAppend` | src/data/mock.ts:242 | a further competition appends its matches |
| `Navigation.DropEmpty` | src/components/layout/main-layout.tsx:45-46 | `filter(Boolean)` drops every empty piece and keeps every other piece as often as it occurs (its order: `DropEmptyConcat`) |
| `Navigation.DropEmptyConcat` | src/components/layout/main-layout.tsx:45-46 | the filter distributes over concatenation |
| `Navigation.Segments` | src/components/layout/main-layout.tsx:45-46 | segments are non-empty and contain no slash |
| `Navigation.SegmentsAt` | src/components/layout/main-layout.tsx:45-46 | a slash splits the segments of the two sides |
| `Navigation.SegmentsOfName` | src/components/layout/main-layout.tsx:45-46 | a non-empty name without a slash is one segment |
| `Navigation.SegmentsIgnoreLeadingSlash` | src/components/layout/main-layout.tsx:45-46 | a leading slash does not change the segments |
| `Navigation.SegmentsIgnoreTrailingSlash` | src/components/layout/main-layout.tsx:45-46 | a trailing slash does not change the segments |
| `Navigation.SegmentsIgnoreDoubledSlash` | src/components/layout/main-layout.tsx:45-46 | a doubled slash counts as one |
| `Navigation.EveryFromMeans` | src/components/layout/main-layout.tsx:48 | `every` holds exactly when each segment passes the predicate |
| `Navigation.EveryMeansPrefix` | src/components/layout/main-layout.tsx:48 | `every` holds exactly when the link's segments are a prefix of the path's and number at most `matchSegments` (or none) |
| `Navigation.IsActive` | src/components/layout/main-layout.tsx:43-49 | "/" is active exactly on the path "/"; any other link is active exactly when its segments lead the path's and number at most `matchSegments` (or none) |
| `Navigation.TooManySegmentsInactive` | src/components/layout/main-layout.tsx:48 | a non-root link with more segments than `matchSegments` is never active |
| `Navigation.ShorterPathInactive` | src/components/layout/main-layout.tsx:48 | a path with fewer segments than the link never activates it |
| `Navigation.NoSegmentsAlwaysActive` | src/components/layout/main-layout.tsx:46-48 | a non-root link without segments is active on every path |
| `Navigation.ActiveDependsOnSegments` | src/components/layout/main-layout.tsx:45-48 | apart from "/", paths with the same segments activate the same links |
| `Navigation.SegmentsOfRootName` | src/components/layout/main-layout.tsx:46 | "/name" is the single segment `name` |
| `Navigation.LinkActiveBelow` | src/components/layout/main-layout.tsx:44-48 | a one-segment link is active one level below itself |
| `Navigation.CompetitionsSegments` | src/components/layout/main-layout.tsx:31 | the competitions link is the one segment "competitions" |
| `Navigation.CompetitionPageActivatesCompetitions` | src/components/layout/main-layout.tsx:43-49 | on "/competitions/comp-1" the competitions entry is active and the home entry is not |
| `Navigation.EveryUpToFromMeans` | src/components/layout/main-layout.tsx:48 | the corrected `every` holds exactly when each segment passes the corrected predicate |
| `Navigation.EveryUpToAt` | src/components/layout/main-layout.tsx:48 | the corrected `every` holds exactly when the link's segments agree with the path's at every position below `matchSegments` |
| `Navigation.IsActiveUpTo` | src/components/layout/main-layout.tsx:43-49 | corrected check: the root link is active on "/" only; any other link is active exactly when its segments agree with the path's at every position below `matchSegments` (so inactive as soon as one of those positions differs or is missing), hence on its own page and below; it agrees with `IsActive` when the link has at most `matchSegments` segments |
| `Navigation.LongLinkOwnPage` | src/components/layout/main-layout.tsx:43-49 | a link with more segments than `matchSegments` is inactive on its own page as written, and active as corrected |
| `Navigation.OwnPageInactive` | src/components/layout/main-layout.tsx:43-49 | "/competitions/comp-1" with `matchSegments` 1 is inactive on its own page as written |
| `Navigation.ItemActive` | src/components/layout/main-layout.tsx:29-92 | the highlight and the header's `find` call `isActive` as written, with the default of 1 for an absent `matchSegments`: the root entry is active on "/" only, an entry with more segments than its limit never is, and an entry within its limit is active exactly when the corrected check says so |
| `Navigation.FindActive` | src/components/layout/main-layout.tsx:92 | `find` (with `isActive` as written) returns the first active entry, or none exactly when no entry is active |
| `Navigation.FirstActiveFound` | src/components/layout/main-layout.tsx:92 | `find` returns the entry that is active with no active entry before it |
| `Navigation.HeaderLabel` | src/components/layout/main-layout.tsx:92 | the title is "Match Maestro" when no entry is active by `isActive` as written; when entry `i` is the first active one, the title is its label, or "Match Maestro" if that label is empty |
| `Navigation.HeaderOfTwo` | src/components/layout/main-layout.tsx:92 | with two entries with non-empty titles, the header shows the first entry active by `isActive` as written, else the second if active, else "Match Maestro" |
| `Navigation.DashboardItem` | src/components/layout/main-layout.tsx:30-44 | the dashboard entry is active on "/" only |
| `Navigation.CompetitionsItem` | src/components/layout/main-layout.tsx:31-48 | the competitions entry is active exactly on paths whose first segment is "competitions" |
| `Navigation.MenuHighlightsOne` | src/components/layout/main-layout.tsx:65-70 | at most one sidebar entry is highlighted on any page |
| `Navigation.SiteHeader` | src/components/layout/main-layout.tsx:92 | the header reads "Dashboard" exactly on "/", "Competitions" under /competitions, and "Match Maestro" elsewhere |
| `MatchDisplay.StatusVariant` | src/components/matches/match-schedule-display.tsx:36-44 | Scheduled→outline, Live→destructive, Completed→secondary, Postponed→default, each in both directions |
| `MatchDisplay.Award` | src/components/matches/match-schedule-display.tsx:86-87 | 3 exactly for a win, 1 exactly for a draw, 0 exactly for a loss |
| `MatchDisplay.AwardText` | src/components/matches/match-schedule-display.tsx:86-87 | the text is "+" followed by the award's decimal rendering |
| `MatchDisplay.PointsLine` | src/components/matches/match-schedule-display.tsx:80-87 | shown exactly for a completed match with both scores; the pair is (3,0), (0,3) or (1,1), and a side gets 3 exactly when it scored more |
| `MatchDisplay.PointsLineMatchesStandings` | src/components/matches/match-schedule-display.tsx:86-87 | the awards shown equal the points `calculateStandings` adds to the two rows (both to one row when a team meets itself) |
| `MatchDisplay.ScoreShown` | src/components/matches/match-schedule-display.tsx:69-71 | a score is shown exactly for completed or live matches, with a missing score shown as 0 |
| `MatchDisplay.PointsFollowShownScore` | src/components/matches/match-schedule-display.tsx:69-87 | when a points line is shown, a score is shown too and the awards follow from it |
| `MatchDisplay.ScoreString` | src/components/matches/match-schedule-display.tsx:101 | a score string exists exactly when both scores are present |
| `MatchDisplay.ScoreStringRoundTrip` | src/components/matches/match-schedule-display.tsx:101 | parsing "<a>-<b>" gives back both scores |
| `MatchDisplay.ScoreStringInjective` | src/components/matches/match-schedule-display.tsx:101 | equal score strings mean equal scores |
| `MatchDisplay.Card` | src/components/matches/match-schedule-display.tsx:54-105 | a card carries its match's id and status, the badge of that status, and a points text (`+3`/`+1`/`+0`) exactly when it shows points, each text being the award's digits after `+` |
| `MatchDisplay.Cards` | src/components/matches/match-schedule-display.tsx:54 | one card per match, in order |
| `MatchDisplay.MatchScheduleDisplay` | src/components/matches/match-schedule-display.tsx:22-54 | an absent or empty list gives exactly the empty state with its message; otherwise one card per match, in order, with that match's id and status |
| `MatchDisplay.CardPointsCount` | src/components/matches/match-schedule-display.tsx:80-90 | a card shows a points line exactly when its match counts towards the standings, with that match's awards as numbers and as `+3`/`+1`/`+0` text |

## Left out

- `Math.random` is an input sequence `random` with values in [0, 1). Its distribution is not modelled.
- `Fixtures.Fixture`: the statement about the draws names which calls are made, not what values they return.
- `new Date(...).toISOString()` depends on the local time zone (src/data/mock.ts:49-56). `Fixtures.MatchDates` holds the UTC values.
- `date-fns` formatting of the date on a card (src/components/matches/match-schedule-display.tsx:60) is left out. The card keeps the raw date and time.
- Rendering is not modelled: icons, logos, CSS classes, the sidebar's open state, and the React tree.
- Fixtures.GeneratePlayers: requires fewer than 0xD800 − 65 players, which keeps `String.fromCharCode(65 + i)` a Dafny `char`. Beyond that the source yields lone surrogate code units (from 0xD800 to 0xDFFF), other characters up to 0xFFFF, and only from 65536 on does the code wrap modulo 2^16; none of this is modelled.
- Text.UpperAscii: `toUpperCase` is modelled for the ASCII letters only.
- `Standings.CalculateStandings` requires every side of a counted match to be a registered team. For a missing team the lookup at src/data/mock.ts:127-128 yields `undefined`, and the increment at src/data/mock.ts:130 throws; the model does not describe that failure. `Fixtures.FixturesRegistered` shows that generated schedules always meet the requirement.
- Scores are `nat`. The source types them as `number`, but the generator only produces non-negative integers.
- JavaScript numbers are doubles: `${n}` switches to exponent notation from 10^21, and integers are exact only below 2^53. `Text.NatToString` and the counters model unbounded integers.
- Fields of src/types/index.ts that the core never reads are left out: `staff` of a team; `officials`, `lineupA`, `lineupB`, `events` and `story` of a match; `MatchEvent`; and the `Competition` record, which appears only as the list of its matches.
- Module initialisation (src/data/mock.ts:210-229) is left out:
  - the fixed competitions;
  - `poolName`;
  - the random `topScorers`;
  - the `getCompetitionById` / `getAllCompetitions` lookups.
- `Fixtures.MatchesOfTeam` takes the competitions' match lists as a parameter instead of reading the global list.
- The match storyteller is not part of this model: src/ai/flows/match-storyteller.ts calls a hosted language model, and src/components/ai/match-storyteller-client.tsx is its client.

## Findings

| source | as written | input that shows it | evidently intended | confidence | as-written member | corrected member |
|---|---|---|---|---|---|---|
| src/components/layout/main-layout.tsx:48 | the `every` predicate demands `i < matchSegments` of every segment, so a link with more segments than `matchSegments` is never active | href "/competitions/comp-1", matchSegments 1, pathname "/competitions/comp-1": the link is inactive on its own page | only the first `matchSegments` segments are compared (the comment on line 26 calls it the number of segments to match) | medium, not executed | `Navigation.OwnPageInactive` | `Navigation.IsActiveUpTo` |

The menu (`Navigation.ItemActive`, and through it `FindActive`, `HeaderLabel` and `SiteHeader`) uses `isActive` as written. The third clause of `ItemActive`'s contract shows that the written and corrected checks agree on every entry that has no more segments than its `matchSegments`. Both entries of the site are like that, so the bug does not show on the current pages.
