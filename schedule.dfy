/** The match schedule view (src/components/matches/match-schedule-display.tsx):
    the empty state, and for each match its status badge, the score shown
    between the teams, the points line of a completed match and the score
    string handed to the match storyteller. */
module MatchDisplay {

  import opened Types
  import opened Text
  import Standings

  /** The badge variants the view uses. */
  datatype BadgeVariant = Outline | Destructive | Secondary | Default

  /** `getStatusVariant`: the badge colour of each status. */
  function StatusVariant(status: MatchStatus): (v: BadgeVariant)
    ensures v == Outline <==> status == Scheduled
    ensures v == Destructive <==> status == Live
    ensures v == Secondary <==> status == Completed
    ensures v == Default <==> status == Postponed
  {
    match status
    case Scheduled => Outline
    case Live => Destructive
    case Completed => Secondary
    case Postponed => Default
  }

  /** The points one side is credited with on the points line. */
  function Award(scored: nat, conceded: nat): (points: nat)
    ensures points == 3 <==> scored > conceded
    ensures points == 1 <==> scored == conceded
    ensures points == 0 <==> scored < conceded
  {
    if scored > conceded then 3 else if scored == conceded then 1 else 0
  }

  /** The text of one side's award, "+3", "+1" or "+0". */
  function AwardText(scored: nat, conceded: nat): (text: string)
    ensures text == "+" + NatToString(Award(scored, conceded))
  {
    if scored > conceded then "+3" else if scored == conceded then "+1" else "+0"
  }

  /** The "Points from this match" line: team A's and team B's award, shown
      only for a completed match with both scores. */
  function PointsLine(m: Match): (line: Option<(nat, nat)>)
    ensures line.Some? <==> m.status == Completed && m.scoreA.Some? && m.scoreB.Some?
    ensures line.Some? ==> line.value == (3, 0) || line.value == (0, 3) || line.value == (1, 1)
    ensures line.Some? ==> (line.value.0 == 3 <==> m.scoreA.value > m.scoreB.value)
    ensures line.Some? ==> (line.value.1 == 3 <==> m.scoreB.value > m.scoreA.value)
  {
    if m.status == Completed && m.scoreA.Some? && m.scoreB.Some? then
      Some((Award(m.scoreA.value, m.scoreB.value), Award(m.scoreB.value, m.scoreA.value)))
    else None
  }

  /** The points line shows exactly what the standings add to the points of
      the two rows (both awards to the one row when a team meets itself). */
  lemma PointsLineMatchesStandings(t: map<string, StandingEntry>, m: Match)
    requires Standings.Counts(m) && m.teamA.id in t && m.teamB.id in t
    ensures var line, t' := PointsLine(m).value, Standings.ApplyMatch(t, m);
      var a, b := m.teamA.id, m.teamB.id;
      if a != b then
        t'[a].points == t[a].points + line.0 && t'[b].points == t[b].points + line.1
      else t'[a].points == t[a].points + line.0 + line.1
  {
  }

  /** The score shown between the teams: both scores, a missing one shown as
      0, for a completed or live match; nothing (an icon) otherwise. */
  function ScoreShown(m: Match): (shown: Option<(nat, nat)>)
    ensures shown.Some? <==> m.status == Completed || m.status == Live
    ensures shown.Some? ==> shown.value.0 == (if m.scoreA.Some? then m.scoreA.value else 0)
    ensures shown.Some? ==> shown.value.1 == (if m.scoreB.Some? then m.scoreB.value else 0)
  {
    if m.status == Completed || m.status == Live then
      Some((match m.scoreA case Some(a) => a case None => 0, match m.scoreB case Some(b) => b case None => 0))
    else None
  }

  /** Where both appear, the shown score accounts for the points line. */
  lemma PointsFollowShownScore(m: Match)
    requires PointsLine(m).Some?
    ensures ScoreShown(m).Some?
    ensures var s := ScoreShown(m).value;
      PointsLine(m).value == (Award(s.0, s.1), Award(s.1, s.0))
  {
  }

  /** The score string handed to the storyteller: "<scoreA>-<scoreB>" when
      both scores are present, none otherwise. */
  function ScoreString(m: Match): (score: Option<string>)
    ensures score.Some? <==> m.scoreA.Some? && m.scoreB.Some?
  {
    if m.scoreA.Some? && m.scoreB.Some? then Some(NatToString(m.scoreA.value) + "-" + NatToString(m.scoreB.value))
    else None
  }

  /** Reads a score string back: two decimal numbers around one '-'. */
  function ParseScore(s: string): (r: Option<(nat, nat)>)
  {
    var pieces := Split(s, '-');
    if |pieces| != 2 then None
    else match (ParseNat(pieces[0]), ParseNat(pieces[1]))
      case (Some(a), Some(b)) => Some((a, b))
      case _ => None
  }

  /** The score string carries both scores: reading it back gives them. */
  lemma ScoreStringRoundTrip(m: Match)
    requires m.scoreA.Some? && m.scoreB.Some?
    ensures ParseScore(ScoreString(m).value) == Some((m.scoreA.value, m.scoreB.value))
  {
    var a, b := NatToString(m.scoreA.value), NatToString(m.scoreB.value);
    SplitAt(a, '-', b);
    SplitPlain(a, '-');
    SplitPlain(b, '-');
    ParseNatToString(m.scoreA.value);
    ParseNatToString(m.scoreB.value);
  }

  /** Matches with the same score string have the same scores. */
  lemma ScoreStringInjective(m1: Match, m2: Match)
    requires ScoreString(m1).Some? && ScoreString(m1) == ScoreString(m2)
    ensures m1.scoreA == m2.scoreA && m1.scoreB == m2.scoreB
  {
    ScoreStringRoundTrip(m1);
    ScoreStringRoundTrip(m2);
  }

  /** What one match card shows (the formatted date, the logos and the
      storyteller's own rendering are left out). */
  datatype MatchCard = MatchCard(
    id: string,
    date: string,
    time: string,
    status: MatchStatus,
    badge: BadgeVariant,
    teamA: string,
    teamB: string,
    score: Option<(nat, nat)>,
    points: Option<(nat, nat)>,
    pointsText: Option<(string, string)>,
    venue: string,
    details: string,
    scoreString: Option<string>,
    keyEvents: Option<string>)

  /** The card of one match in a competition: its badge follows its status,
      and the points line, when shown, renders each side's award as text. */
  function Card(m: Match, competitionName: string): (card: MatchCard)
    ensures card.id == m.id && card.status == m.status && card.badge == StatusVariant(m.status)
    ensures card.pointsText.Some? <==> card.points.Some?
    ensures card.pointsText.Some? ==>
      card.pointsText.value == ("+" + NatToString(card.points.value.0), "+" + NatToString(card.points.value.1))
  {
    var pointsText := match PointsLine(m)
      case Some(_) => Some((AwardText(m.scoreA.value, m.scoreB.value), AwardText(m.scoreB.value, m.scoreA.value)))
      case None => None;
    MatchCard(m.id, m.date, m.time, m.status, StatusVariant(m.status), m.teamA.name, m.teamB.name,
              ScoreShown(m), PointsLine(m), pointsText, m.venue,
              m.teamA.name + " vs " + m.teamB.name + " in " + competitionName,
              ScoreString(m), m.keyEventsSummary)
  }

  /** `matches.map(...)`: one card per match, in order. */
  function Cards(matches: seq<Match>, competitionName: string): (cards: seq<MatchCard>)
    ensures |cards| == |matches|
    ensures forall i :: 0 <= i < |matches| ==> cards[i] == Card(matches[i], competitionName)
  {
    if |matches| == 0 then [] else [Card(matches[0], competitionName)] + Cards(matches[1..], competitionName)
  }

  /** The two shapes of the view: the empty-state card or the schedule. */
  datatype ScheduleView =
    | EmptySchedule(title: string, message: string)
    | Schedule(title: string, description: string, cards: seq<MatchCard>)

  const ScheduleTitle: string := "Match Schedule"
  const EmptyMessage: string := "No matches scheduled for this competition yet."

  /** `MatchScheduleDisplay`: an absent or empty list gives the empty state;
      otherwise one card per match, in the order given. */
  function MatchScheduleDisplay(matches: Option<seq<Match>>, competitionName: string): (view: ScheduleView)
    ensures view.EmptySchedule? <==> matches.None? || |matches.value| == 0
    ensures view.EmptySchedule? ==> view.message == EmptyMessage
    ensures view.Schedule? ==> |view.cards| == |matches.value|
    ensures view.Schedule? ==> forall i :: 0 <= i < |view.cards| ==>
      view.cards[i].id == matches.value[i].id && view.cards[i].status == matches.value[i].status
  {
    if matches.None? || |matches.value| == 0 then EmptySchedule(ScheduleTitle, EmptyMessage)
    else Schedule(ScheduleTitle, "Upcoming and past matches for " + competitionName + ".", Cards(matches.value, competitionName))
  }

  /** A card shows a points line exactly when its match counts towards the
      standings, and then the awards of that match, as numbers and as text. */
  lemma CardPointsCount(matches: seq<Match>, competitionName: string, i: nat)
    requires i < |matches|
    ensures var view := MatchScheduleDisplay(Some(matches), competitionName);
      && view.Schedule?
      && (view.cards[i].points.Some? <==> Standings.Counts(matches[i]))
      && (view.cards[i].points.Some? ==>
            view.cards[i].points.value == (Award(matches[i].scoreA.value, matches[i].scoreB.value),
                                           Award(matches[i].scoreB.value, matches[i].scoreA.value)))
      && (view.cards[i].pointsText.Some? <==> Standings.Counts(matches[i]))
      && (view.cards[i].pointsText.Some? ==>
            view.cards[i].pointsText.value == (AwardText(matches[i].scoreA.value, matches[i].scoreB.value),
                                               AwardText(matches[i].scoreB.value, matches[i].scoreA.value)))
  {
  }
}
