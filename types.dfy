/** The records of the tournament site (src/types/index.ts).
    Optional TypeScript fields become `Option`; scores and counters are
    non-negative integers. */
module Types {

  datatype Option<+T> = None | Some(value: T)

  /** `MatchStatus`: the four states a fixture can be in. */
  datatype MatchStatus = Scheduled | Live | Completed | Postponed

  datatype Player = Player(
    id: string,
    name: string,
    jerseyNumber: Option<nat>,
    position: Option<string>)

  datatype Team = Team(
    id: string,
    name: string,
    logoUrl: Option<string>,
    players: seq<Player>,
    coach: Option<string>)

  datatype Match = Match(
    id: string,
    competitionId: string,
    date: string,
    time: string,
    teamA: Team,
    teamB: Team,
    scoreA: Option<nat>,
    scoreB: Option<nat>,
    status: MatchStatus,
    venue: string,
    keyEventsSummary: Option<string>)

  /** One row of a standings table. */
  datatype StandingEntry = StandingEntry(
    teamId: string,
    teamName: string,
    teamLogoUrl: Option<string>,
    played: nat,
    won: nat,
    drawn: nat,
    lost: nat,
    goalsFor: nat,
    goalsAgainst: nat,
    goalDifference: int,
    points: nat)
}
