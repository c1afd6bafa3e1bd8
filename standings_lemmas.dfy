/** What the table returned by `calculateStandings` satisfies, for all
    inputs the source accepts: one row per distinct team, the accounting
    identities of every row, conservation of goals and results across the
    table, indifference to matches that do not count, and the ordering. */
module StandingsLemmas {

  import opened Types
  import opened Ranking
  import opened Standings

  /** The numeric columns of a row. */
  datatype Column = Played | Won | Drawn | Lost | GoalsFor | GoalsAgainst | Points

  function Get(e: StandingEntry, c: Column): int {
    match c
    case Played => e.played
    case Won => e.won
    case Drawn => e.drawn
    case Lost => e.lost
    case GoalsFor => e.goalsFor
    case GoalsAgainst => e.goalsAgainst
    case Points => e.points
  }

  /** The column total of a sequence of rows. */
  function Total(es: seq<StandingEntry>, c: Column): int {
    if |es| == 0 then 0 else Get(es[0], c) + Total(es[1..], c)
  }

  function IdsOf(es: seq<StandingEntry>): set<string> {
    set e | e in es :: e.teamId
  }

  ghost predicate DistinctTeams(es: seq<StandingEntry>) {
    forall i, j :: 0 <= i < j < |es| ==> es[i].teamId != es[j].teamId
  }

  /** The counted matches of `ms`, in order. */
  function CountedOnly(ms: seq<Match>): (r: seq<Match>)
    ensures forall m :: m in r <==> m in ms && Counts(m)
  {
    if |ms| == 0 then []
    else
      var prefix := ms[..|ms| - 1];
      var last := ms[|ms| - 1];
      assert ms == prefix + [last];
      CountedOnly(prefix) + (if Counts(last) then [last] else [])
  }

  /** Goals scored in the counted matches of `ms`, both sides together. */
  function Goals(ms: seq<Match>): nat {
    if |ms| == 0 then 0
    else
      var last := ms[|ms| - 1];
      Goals(ms[..|ms| - 1]) + (if Counts(last) then last.scoreA.value + last.scoreB.value else 0)
  }

  /** Counted matches of `ms` that have a winner. */
  function Decisive(ms: seq<Match>): nat {
    if |ms| == 0 then 0
    else
      var last := ms[|ms| - 1];
      Decisive(ms[..|ms| - 1]) + (if Counts(last) && last.scoreA.value != last.scoreB.value then 1 else 0)
  }

  /** Counted matches of `ms` that ended level. */
  function Draws(ms: seq<Match>): nat {
    if |ms| == 0 then 0
    else
      var last := ms[|ms| - 1];
      Draws(ms[..|ms| - 1]) + (if Counts(last) && last.scoreA.value == last.scoreB.value then 1 else 0)
  }

  // ---------------------------------------------------------------------
  // Registering the teams

  /** A duplicated id keeps the row of the last team that carries it. */
  lemma {:induction false} InitialTableRow(teams: seq<Team>, id: string)
    requires id in TeamIds(teams)
    ensures InitialTable(teams)[id] == Zero(LastWithId(teams, id))
  {
    var prefix := teams[..|teams| - 1];
    if teams[|teams| - 1].id != id {
      assert id in TeamIds(prefix) by {
        var u :| u in teams && u.id == id;
        assert u in prefix;
      }
      InitialTableRow(prefix, id);
    }
  }

  /** Ids listed in the order of their first appearance in `teams`. */
  ghost predicate FirstSeenOrder(teams: seq<Team>, order: seq<string>)
    requires forall id :: id in order ==> id in TeamIds(teams)
  {
    forall i, j :: 0 <= i < j < |order| ==> FirstIndex(teams, order[i]) < FirstIndex(teams, order[j])
  }

  /** Appending a team does not move the first occurrence of an id already present. */
  lemma FirstIndexPrefix(teams: seq<Team>, id: string)
    requires |teams| > 0 && id in TeamIds(teams[..|teams| - 1])
    ensures id in TeamIds(teams)
    ensures FirstIndex(teams, id) == FirstIndex(teams[..|teams| - 1], id) < |teams| - 1
  {
    var u :| u in teams[..|teams| - 1] && u.id == id;
    assert u in teams;
  }

  /** An order kept in first-seen order over `teams` stays so after a team is appended. */
  lemma FirstSeenOrderExtend(teams: seq<Team>, o: seq<string>)
    requires |teams| > 0
    requires forall id :: id in o ==> id in TeamIds(teams[..|teams| - 1])
    requires FirstSeenOrder(teams[..|teams| - 1], o)
    ensures forall id :: id in o ==> id in TeamIds(teams)
    ensures FirstSeenOrder(teams, o)
  {
    var p := teams[..|teams| - 1];
    forall id | id in o ensures id in TeamIds(teams) && FirstIndex(teams, id) == FirstIndex(p, id) {
      FirstIndexPrefix(teams, id);
    }
    forall i, j | 0 <= i < j < |o| ensures FirstIndex(teams, o[i]) < FirstIndex(teams, o[j]) {
      assert o[i] in o && o[j] in o;
    }
  }

  /** Rows are listed in the order in which their ids first appear in `teams`. */
  lemma {:induction false} InsertionOrderFirstSeen(teams: seq<Team>)
    ensures FirstSeenOrder(teams, InsertionOrder(teams))
  {
    if |teams| > 0 {
      var p := teams[..|teams| - 1];
      var t := teams[|teams| - 1];
      InsertionOrderFirstSeen(p);
      var o := InsertionOrder(p);
      FirstSeenOrderExtend(teams, o);
      if t.id !in o {
        var order := o + [t.id];
        assert order == InsertionOrder(teams);
        assert FirstIndex(teams, t.id) == |p|;
        forall i, j | 0 <= i < j < |order|
          ensures FirstIndex(teams, order[i]) < FirstIndex(teams, order[j])
        {
          assert order[i] == o[i] && o[i] in o;
          FirstIndexPrefix(teams, o[i]);
          if j < |o| {
            assert order[j] == o[j];
          }
        }
      }
    }
  }

  // ---------------------------------------------------------------------
  // Rows while the matches are folded in

  /** Every row of `t` is filed under its own id and satisfies the identities. */
  ghost predicate WellFormed(t: map<string, StandingEntry>) {
    forall id :: id in t ==> t[id].teamId == id && Consistent(t[id])
  }

  /** The team identity of a row (id, name, logo) never changes. */
  ghost predicate SameTeams(t: map<string, StandingEntry>, u: map<string, StandingEntry>) {
    t.Keys == u.Keys
    && forall id :: id in t ==>
         u[id].teamId == t[id].teamId && u[id].teamName == t[id].teamName && u[id].teamLogoUrl == t[id].teamLogoUrl
  }

  lemma InitialTableWellFormed(teams: seq<Team>)
    ensures WellFormed(InitialTable(teams))
    ensures forall id :: id in InitialTable(teams) ==> IsZero(InitialTable(teams)[id])
  {
    forall id | id in InitialTable(teams)
      ensures InitialTable(teams)[id].teamId == id && Consistent(InitialTable(teams)[id])
      ensures IsZero(InitialTable(teams)[id])
    {
      InitialTableRow(teams, id);
    }
  }

  lemma ApplyMatchWellFormed(t: map<string, StandingEntry>, m: Match)
    requires Counts(m) ==> m.teamA.id in t && m.teamB.id in t
    requires WellFormed(t)
    ensures WellFormed(ApplyMatch(t, m))
    ensures SameTeams(t, ApplyMatch(t, m))
  {
    if Counts(m) {
      var a, b := m.teamA.id, m.teamB.id;
      var t1 := t[a := Credit(t[a], m.scoreA.value, m.scoreB.value)];
      assert WellFormed(t1) && SameTeams(t, t1);
      var t2 := t1[b := Credit(t1[b], m.scoreB.value, m.scoreA.value)];
      assert WellFormed(t2) && SameTeams(t1, t2);
      assert t2 == ApplyMatch(t, m);
    }
  }

  /** Recording a counted match replaces the rows of its two sides by their
      credited rows (one after the other when both sides are one team), and
      leaves every other row, and the whole table when it does not count,
      as it was. */
  lemma ApplyMatchRows(t: map<string, StandingEntry>, m: Match)
    requires Counts(m) ==> m.teamA.id in t && m.teamB.id in t
    ensures var t', a, b := ApplyMatch(t, m), m.teamA.id, m.teamB.id;
      && (forall x :: x in t && (!Counts(m) || (x != a && x != b)) ==> t'[x] == t[x])
      && (Counts(m) && a != b ==>
            t'[a] == Credit(t[a], m.scoreA.value, m.scoreB.value) && t'[b] == Credit(t[b], m.scoreB.value, m.scoreA.value))
      && (Counts(m) && a == b ==>
            t'[a] == Credit(Credit(t[a], m.scoreA.value, m.scoreB.value), m.scoreB.value, m.scoreA.value))
  {
  }

  /** Folding the matches keeps every row well formed and its team identity. */
  lemma {:induction false} TallyWellFormed(t: map<string, StandingEntry>, ms: seq<Match>)
    requires forall m :: m in ms && Counts(m) ==> m.teamA.id in t && m.teamB.id in t
    requires WellFormed(t)
    ensures WellFormed(Tally(t, ms))
    ensures SameTeams(t, Tally(t, ms))
  {
    if |ms| > 0 {
      var prefix := ms[..|ms| - 1];
      assert forall m :: m in prefix ==> m in ms;
      TallyWellFormed(t, prefix);
      ApplyMatchWellFormed(Tally(t, prefix), ms[|ms| - 1]);
    }
  }

  // ---------------------------------------------------------------------
  // Matches that do not count

  lemma {:induction false} TallyCountedOnly(t: map<string, StandingEntry>, ms: seq<Match>)
    requires forall m :: m in ms && Counts(m) ==> m.teamA.id in t && m.teamB.id in t
    ensures Tally(t, ms) == Tally(t, CountedOnly(ms))
  {
    if |ms| > 0 {
      var prefix := ms[..|ms| - 1];
      var last := ms[|ms| - 1];
      assert forall m :: m in prefix ==> m in ms;
      TallyCountedOnly(t, prefix);
      var c := CountedOnly(prefix);
      if Counts(last) {
        assert (c + [last])[..|c|] == c;
      } else {
        assert CountedOnly(ms) == c;
      }
    }
  }

  lemma {:induction false} CountedOnlyConcat(a: seq<Match>, b: seq<Match>)
    ensures CountedOnly(a + b) == CountedOnly(a) + CountedOnly(b)
  {
    if |b| > 0 {
      var bp := b[..|b| - 1];
      assert (a + b)[..|a + b| - 1] == a + bp;
      assert (a + b)[|a + b| - 1] == b[|b| - 1];
      CountedOnlyConcat(a, bp);
    } else {
      assert a + b == a;
    }
  }

  /** Matches that are not completed, or lack a score, are ignored. */
  lemma StandingsIgnoreUncounted(teams: seq<Team>, ms: seq<Match>)
    requires Registered(teams, ms)
    ensures Registered(teams, CountedOnly(ms))
    ensures StandingsTable(teams, ms) == StandingsTable(teams, CountedOnly(ms))
  {
    TallyCountedOnly(InitialTable(teams), ms);
    TallyCountedOnly(InitialTable(teams), CountedOnly(ms));
    CountedOnlyIdempotent(ms);
  }

  lemma {:induction false} CountedOnlyIdempotent(ms: seq<Match>)
    ensures CountedOnly(CountedOnly(ms)) == CountedOnly(ms)
  {
    if |ms| > 0 {
      var prefix := ms[..|ms| - 1];
      var last := ms[|ms| - 1];
      CountedOnlyIdempotent(prefix);
      CountedOnlyConcat(CountedOnly(prefix), if Counts(last) then [last] else []);
    }
  }

  lemma CountedOnlyDropsUncounted(before: seq<Match>, m: Match, after: seq<Match>)
    requires !Counts(m)
    ensures CountedOnly(before + [m] + after) == CountedOnly(before + after)
  {
    CountedOnlyConcat(before + [m], after);
    CountedOnlyConcat(before, [m]);
    CountedOnlyConcat(before, after);
    assert [m][..0] == [];
  }

  /** Adding a match that does not count, anywhere in the list, changes nothing. */
  lemma StandingsUncountedInserted(teams: seq<Team>, before: seq<Match>, m: Match, after: seq<Match>)
    requires !Counts(m)
    requires Registered(teams, before + after)
    ensures Registered(teams, before + [m] + after)
    ensures StandingsTable(teams, before + [m] + after) == StandingsTable(teams, before + after)
  {
    var with, without := before + [m] + after, before + after;
    assert forall x :: x in with ==> x in without || x == m;
    CountedOnlyDropsUncounted(before, m, after);
    StandingsIgnoreUncounted(teams, with);
    StandingsIgnoreUncounted(teams, without);
  }

  // ---------------------------------------------------------------------
  // Column totals

  lemma {:induction false} ValuesFrame(order: seq<string>, t: map<string, StandingEntry>, id: string, e: StandingEntry)
    requires forall x :: x in order ==> x in t
    requires id !in order
    ensures Values(order, t[id := e]) == Values(order, t)
  {
  }

  lemma {:induction false} TotalUpdate(order: seq<string>, t: map<string, StandingEntry>, id: string, e: StandingEntry, c: Column)
    requires NoDup(order) && id in order
    requires forall x :: x in order ==> x in t
    ensures Total(Values(order, t[id := e]), c) == Total(Values(order, t), c) - Get(t[id], c) + Get(e, c)
  {
    var u := t[id := e];
    assert Values(order, u)[1..] == Values(order[1..], u);
    assert Values(order, t)[1..] == Values(order[1..], t);
    if order[0] == id {
      assert forall j :: 1 <= j < |order| ==> order[j] != id;
      assert forall j :: 0 <= j < |order[1..]| ==> order[1..][j] == order[j + 1];
      ValuesFrame(order[1..], t, id, e);
    } else {
      assert NoDup(order[1..]) by {
        forall i, j | 0 <= i < j < |order[1..]| ensures order[1..][i] != order[1..][j] {
          assert order[i + 1] != order[j + 1];
        }
      }
      TotalUpdate(order[1..], t, id, e, c);
    }
  }

  /** What `Credit` adds to column `c` of a row, whatever the row held. */
  function Gain(scored: nat, conceded: nat, c: Column): int {
    match c
    case Played => 1
    case Won => if scored > conceded then 1 else 0
    case Drawn => if scored == conceded then 1 else 0
    case Lost => if scored < conceded then 1 else 0
    case GoalsFor => scored
    case GoalsAgainst => conceded
    case Points => if scored > conceded then 3 else if scored == conceded then 1 else 0
  }

  /** Crediting a row moves each column by exactly that side's gain. */
  lemma CreditGain(e: StandingEntry, scored: nat, conceded: nat)
    ensures forall c :: Get(Credit(e, scored, conceded), c) == Get(e, c) + Gain(scored, conceded, c)
  {
    forall c ensures Get(Credit(e, scored, conceded), c) == Get(e, c) + Gain(scored, conceded, c) {
      match c
      case Played =>
      case Won =>
      case Drawn =>
      case Lost =>
      case GoalsFor =>
      case GoalsAgainst =>
      case Points =>
    }
  }

  /** What one match adds to a column summed over the table: both sides'
      credit when it counts, nothing otherwise. */
  function MatchGain(m: Match, c: Column): int {
    if Counts(m) then Gain(m.scoreA.value, m.scoreB.value, c) + Gain(m.scoreB.value, m.scoreA.value, c) else 0
  }

  /** What the matches `ms` add to a column summed over the table. */
  function ColumnGain(ms: seq<Match>, c: Column): int {
    if |ms| == 0 then 0 else ColumnGain(ms[..|ms| - 1], c) + MatchGain(ms[|ms| - 1], c)
  }

  /** Recording one match changes a column total by exactly its gain. */
  lemma ApplyMatchColumn(order: seq<string>, t: map<string, StandingEntry>, m: Match, c: Column)
    requires NoDup(order) && (forall x :: x in order ==> x in t)
    requires Counts(m) ==> m.teamA.id in order && m.teamB.id in order
    ensures Total(Values(order, ApplyMatch(t, m)), c) == Total(Values(order, t), c) + MatchGain(m, c)
  {
    if Counts(m) {
      var a, b, sA, sB := m.teamA.id, m.teamB.id, m.scoreA.value, m.scoreB.value;
      var t1 := t[a := Credit(t[a], sA, sB)];
      CreditGain(t[a], sA, sB);
      CreditGain(t1[b], sB, sA);
      TotalUpdate(order, t, a, Credit(t[a], sA, sB), c);
      TotalUpdate(order, t1, b, Credit(t1[b], sB, sA), c);
    }
  }

  /** Folding `ms` into the table changes a column total by their gain. */
  lemma {:induction false} TallyColumn(order: seq<string>, t: map<string, StandingEntry>, ms: seq<Match>, c: Column)
    requires NoDup(order) && (forall x :: x in order <==> x in t)
    requires forall m :: m in ms && Counts(m) ==> m.teamA.id in t && m.teamB.id in t
    ensures Total(Values(order, Tally(t, ms)), c) == Total(Values(order, t), c) + ColumnGain(ms, c)
  {
    if |ms| > 0 {
      var prefix := ms[..|ms| - 1];
      var last := ms[|ms| - 1];
      assert forall m :: m in prefix ==> m in ms;
      TallyColumn(order, t, prefix, c);
      ApplyMatchColumn(order, Tally(t, prefix), last, c);
    }
  }

  /** The gains of the matches, column by column: two appearances, the goals
      on both sides, one winner and one loser, or two draws per counted match. */
  lemma {:induction false} ColumnGains(ms: seq<Match>)
    ensures ColumnGain(ms, Played) == 2 * |CountedOnly(ms)|
    ensures ColumnGain(ms, GoalsFor) == ColumnGain(ms, GoalsAgainst) == Goals(ms)
    ensures ColumnGain(ms, Won) == ColumnGain(ms, Lost) == Decisive(ms)
    ensures ColumnGain(ms, Drawn) == 2 * Draws(ms)
    ensures ColumnGain(ms, Points) == 3 * Decisive(ms) + 2 * Draws(ms)
  {
    if |ms| > 0 {
      ColumnGains(ms[..|ms| - 1]);
    }
  }

  lemma {:induction false} ZeroTotals(es: seq<StandingEntry>, c: Column)
    requires forall e :: e in es ==> IsZero(e)
    ensures Total(es, c) == 0
  {
    if |es| > 0 {
      assert es[0] in es;
      assert forall e :: e in es[1..] ==> e in es;
      ZeroTotals(es[1..], c);
    }
  }

  lemma {:induction false} WithGoalDifferenceTotal(es: seq<StandingEntry>, c: Column)
    ensures Total(WithGoalDifference(es), c) == Total(es, c)
  {
    if |es| > 0 {
      assert WithGoalDifference(es)[1..] == WithGoalDifference(es[1..]);
      WithGoalDifferenceTotal(es[1..], c);
    }
  }

  lemma {:induction false} InsertTotal(x: StandingEntry, s: seq<StandingEntry>, c: Column)
    ensures Total(Insert(x, s), c) == Get(x, c) + Total(s, c)
  {
    if |s| > 0 && Outranks(s[0], x) {
      InsertTotal(x, s[1..], c);
      assert ([s[0]] + Insert(x, s[1..]))[1..] == Insert(x, s[1..]);
    } else {
      assert ([x] + s)[1..] == s;
    }
  }

  lemma {:induction false} RankTotal(s: seq<StandingEntry>, c: Column)
    ensures Total(Rank(s), c) == Total(s, c)
  {
    if |s| > 0 {
      RankTotal(s[1..], c);
      InsertTotal(s[0], Rank(s[1..]), c);
    }
  }

  /** Across the whole table: goals scored equal goals conceded (both the sum
      of all counted scores), wins equal losses, draws come in pairs, and
      every counted match is played by two rows and hands out three points
      with a winner, two without. */
  lemma StandingsTotals(teams: seq<Team>, ms: seq<Match>)
    requires Registered(teams, ms)
    ensures var r := StandingsTable(teams, ms);
      && Total(r, GoalsFor) == Total(r, GoalsAgainst) == Goals(ms)
      && Total(r, Won) == Total(r, Lost) == Decisive(ms)
      && Total(r, Drawn) == 2 * Draws(ms)
      && Total(r, Played) == 2 * |CountedOnly(ms)|
      && Total(r, Points) == 3 * Decisive(ms) + 2 * Draws(ms)
  {
    var order, init := InsertionOrder(teams), InitialTable(teams);
    var tallied := Values(order, Tally(init, ms));
    InitialTableWellFormed(teams);
    ColumnGains(ms);
    forall c | c in {Played, GoalsFor, GoalsAgainst, Won, Lost, Drawn, Points}
      ensures Total(StandingsTable(teams, ms), c) == ColumnGain(ms, c)
    {
      TallyColumn(order, init, ms, c);
      ZeroTotals(Values(order, init), c);
      WithGoalDifferenceTotal(tallied, c);
      RankTotal(WithGoalDifference(tallied), c);
    }
  }

  // ---------------------------------------------------------------------
  // The rows of the result

  lemma {:induction false} InsertDistinct(x: StandingEntry, s: seq<StandingEntry>)
    requires DistinctTeams(s) && x.teamId !in IdsOf(s)
    ensures DistinctTeams(Insert(x, s))
  {
    if |s| > 0 && Outranks(s[0], x) {
      var t := Insert(x, s[1..]);
      assert DistinctTeams(s[1..]) by {
        forall i, j | 0 <= i < j < |s[1..]| ensures s[1..][i].teamId != s[1..][j].teamId {
          assert s[i + 1].teamId != s[j + 1].teamId;
        }
      }
      assert x.teamId !in IdsOf(s[1..]) by {
        assert forall e :: e in s[1..] ==> e in s;
      }
      InsertDistinct(x, s[1..]);
      forall j | 0 <= j < |t| ensures t[j].teamId != s[0].teamId {
        assert t[j] in multiset(t);
        if t[j] != x {
          assert t[j] in s[1..];
          var k :| 0 <= k < |s[1..]| && s[1..][k] == t[j];
          assert s[0].teamId != s[k + 1].teamId;
        } else {
          assert s[0] in s;
        }
      }
      assert Insert(x, s) == [s[0]] + t;
    } else {
      assert forall j :: 0 <= j < |s| ==> s[j] in s;
    }
  }

  lemma {:induction false} RankDistinct(s: seq<StandingEntry>)
    requires DistinctTeams(s)
    ensures DistinctTeams(Rank(s))
  {
    if |s| > 0 {
      assert DistinctTeams(s[1..]) by {
        forall i, j | 0 <= i < j < |s[1..]| ensures s[1..][i].teamId != s[1..][j].teamId {
          assert s[i + 1].teamId != s[j + 1].teamId;
        }
      }
      RankDistinct(s[1..]);
      var r := Rank(s[1..]);
      assert s[0].teamId !in IdsOf(r) by {
        forall e | e in r ensures e.teamId != s[0].teamId {
          assert e in multiset(s[1..]);
          var k :| 0 <= k < |s[1..]| && s[1..][k] == e;
          assert s[0].teamId != s[k + 1].teamId;
        }
      }
      InsertDistinct(s[0], r);
    }
  }

  /** What every row of the result satisfies: the accounting identities, the
      recomputed goal difference, and the id, name and logo of the last team
      in `teams` with that id. */
  ghost predicate RowOk(teams: seq<Team>, e: StandingEntry) {
    && e.played == e.won + e.drawn + e.lost
    && e.points == 3 * e.won + e.drawn
    && e.goalDifference == e.goalsFor - e.goalsAgainst
    && e.teamId in TeamIds(teams)
    && e.teamName == LastWithId(teams, e.teamId).name
    && e.teamLogoUrl == LastWithId(teams, e.teamId).logoUrl
  }

  /** Before sorting, row `i` belongs to the `i`-th id in insertion order. */
  lemma UnrankedRows(teams: seq<Team>, ms: seq<Match>)
    requires Registered(teams, ms)
    ensures var u, order := Unranked(teams, ms), InsertionOrder(teams);
      && |u| == |order|
      && forall i :: 0 <= i < |u| ==> u[i].teamId == order[i] && RowOk(teams, u[i])
  {
    var init, order := InitialTable(teams), InsertionOrder(teams);
    InitialTableWellFormed(teams);
    TallyWellFormed(init, ms);
    var tallied := Tally(init, ms);
    var v := Values(order, tallied);
    var u := WithGoalDifference(v);
    assert u == Unranked(teams, ms);
    forall i | 0 <= i < |u| ensures u[i].teamId == order[i] && RowOk(teams, u[i]) {
      var id := order[i];
      assert v[i] == tallied[id];
      InitialTableRow(teams, id);
    }
  }

  lemma RankMembers(s: seq<StandingEntry>)
    ensures |Rank(s)| == |s|
    ensures forall e :: e in Rank(s) <==> e in s
  {
    var r := Rank(s);
    assert |r| == |multiset(r)| == |multiset(s)| == |s|;
    forall e ensures e in r <==> e in s {
      assert e in r <==> e in multiset(r);
      assert e in s <==> e in multiset(s);
    }
  }

  /** Sorting keeps the rows, their distinct ids and what each row satisfies. */
  lemma RankRows(teams: seq<Team>, u: seq<StandingEntry>)
    requires DistinctTeams(u)
    requires forall e :: e in u ==> RowOk(teams, e)
    ensures var r := Rank(u);
      && |r| == |u|
      && DistinctTeams(r)
      && IdsOf(r) == IdsOf(u)
      && forall e :: e in r ==> RowOk(teams, e)
  {
    RankDistinct(u);
    RankMembers(u);
  }

  /** One row per distinct team id, each satisfying `RowOk`. */
  lemma StandingsRows(teams: seq<Team>, ms: seq<Match>)
    requires Registered(teams, ms)
    ensures var r := StandingsTable(teams, ms);
      && |r| == |InsertionOrder(teams)|
      && DistinctTeams(r)
      && IdsOf(r) == TeamIds(teams)
      && forall e :: e in r ==> RowOk(teams, e)
  {
    var u := Unranked(teams, ms);
    UnrankedRows(teams, ms);
    UnrankedIds(teams, ms);
    assert forall e :: e in u ==> RowOk(teams, e);
    RankRows(teams, u);
  }

  /** Rows keyed position by position by a duplicate-free list of ids carry
      exactly those ids, each once. */
  lemma KeyedRows(u: seq<StandingEntry>, order: seq<string>)
    requires |u| == |order| && NoDup(order)
    requires forall i :: 0 <= i < |u| ==> u[i].teamId == order[i]
    ensures DistinctTeams(u)
    ensures forall id :: id in IdsOf(u) <==> id in order
  {
    forall id | id in order ensures id in IdsOf(u) {
      var i :| 0 <= i < |order| && order[i] == id;
      assert u[i] in u;
    }
  }

  /** Before sorting, the rows carry each registered id exactly once. */
  lemma UnrankedIds(teams: seq<Team>, ms: seq<Match>)
    requires Registered(teams, ms)
    ensures DistinctTeams(Unranked(teams, ms)) && IdsOf(Unranked(teams, ms)) == TeamIds(teams)
  {
    var u, order := Unranked(teams, ms), InsertionOrder(teams);
    UnrankedRows(teams, ms);
    KeyedRows(u, order);
    assert forall id :: id in IdsOf(u) <==> id in TeamIds(teams);
  }

  /** The table is ordered by points, then goal difference, then goals for,
      all descending; rows equal on all three keep their insertion order; and
      the table is a rearrangement of the unsorted rows. */
  lemma StandingsOrdered(teams: seq<Team>, ms: seq<Match>)
    requires Registered(teams, ms)
    ensures var r, u := StandingsTable(teams, ms), Unranked(teams, ms);
      && multiset(r) == multiset(u)
      && (forall i, j :: 0 <= i < j < |r| ==>
            && r[i].points >= r[j].points
            && (r[i].points == r[j].points ==> r[i].goalDifference >= r[j].goalDifference)
            && (r[i].points == r[j].points && r[i].goalDifference == r[j].goalDifference ==>
                  r[i].goalsFor >= r[j].goalsFor))
      && (forall k :: Tied(r, k) == Tied(u, k))
  {
    var r, u := StandingsTable(teams, ms), Unranked(teams, ms);
    forall k ensures Tied(r, k) == Tied(u, k) {
      RankStable(u, k);
    }
    forall i, j | 0 <= i < j < |r| ensures Compare(r[i], r[j]) <= 0 {
    }
  }

  lemma {:induction false} CountedOnlyNone(ms: seq<Match>)
    requires forall m :: m in ms ==> !Counts(m)
    ensures CountedOnly(ms) == []
  {
    if |ms| > 0 {
      assert ms[|ms| - 1] in ms;
      assert forall m :: m in ms[..|ms| - 1] ==> m in ms;
      CountedOnlyNone(ms[..|ms| - 1]);
    }
  }

  lemma ZeroRowsUnchanged(v: seq<StandingEntry>)
    requires forall i :: 0 <= i < |v| ==> IsZero(v[i])
    ensures WithGoalDifference(v) == v
  {
    var w := WithGoalDifference(v);
    forall i | 0 <= i < |v| ensures w[i] == v[i] {
      assert IsZero(v[i]);
    }
  }

  lemma ZeroRowsStay(v: seq<StandingEntry>)
    requires forall i :: 0 <= i < |v| ==> IsZero(v[i])
    ensures Rank(WithGoalDifference(v)) == v
  {
    ZeroRowsUnchanged(v);
    forall i, j | 0 <= i < j < |v| ensures Compare(v[i], v[j]) <= 0 {
      assert IsZero(v[i]) && IsZero(v[j]);
    }
    RankOfSorted(v);
  }

  /** With no counted match, every row is zero and the table keeps the
      insertion order of the teams. */
  lemma StandingsWithoutResults(teams: seq<Team>, ms: seq<Match>)
    requires forall m :: m in ms ==> !Counts(m)
    ensures Registered(teams, ms)
    ensures var r := StandingsTable(teams, ms);
      && r == Values(InsertionOrder(teams), InitialTable(teams))
      && forall e :: e in r ==> IsZero(e)
  {
    var init, order := InitialTable(teams), InsertionOrder(teams);
    TallyCountedOnly(init, ms);
    CountedOnlyNone(ms);
    assert Tally(init, ms) == init by {
      assert Tally(init, []) == init;
    }
    InitialTableWellFormed(teams);
    var v := Values(order, init);
    assert forall i :: 0 <= i < |v| ==> IsZero(v[i]);
    ZeroRowsStay(v);
  }

  /** Registering two teams with different ids. */
  lemma RegisterTwo(a: Team, b: Team)
    requires a.id != b.id
    ensures InsertionOrder([a, b]) == [a.id, b.id]
    ensures InitialTable([a, b]) == map[a.id := Zero(a), b.id := Zero(b)]
  {
    assert [a, b][..1] == [a];
    assert [a][..0] == [];
    assert InsertionOrder([a]) == [a.id];
    assert InitialTable([a]) == map[a.id := Zero(a)];
  }

  /** The 3-1 match recorded into the registered table of its two teams. */
  lemma WinnerLeadsTally(a: Team, b: Team, m: Match)
    requires a.id != b.id
    requires m.teamA == a && m.teamB == b && m.status == Completed && m.scoreA == Some(3) && m.scoreB == Some(1)
    ensures Tally(InitialTable([a, b]), [m]) == map[
      a.id := StandingEntry(a.id, a.name, a.logoUrl, 1, 1, 0, 0, 3, 1, 0, 3),
      b.id := StandingEntry(b.id, b.name, b.logoUrl, 1, 0, 0, 1, 1, 3, 0, 0)]
  {
    RegisterTwo(a, b);
    assert [m][..0] == [];
    assert Tally(InitialTable([a, b]), [m]) == ApplyMatch(InitialTable([a, b]), m);
  }

  /** A match between two teams may be recorded in their table. */
  lemma PairRegistered(a: Team, b: Team, m: Match)
    requires m.teamA == a && m.teamB == b
    ensures Registered([a, b], [m])
  {
    assert a in [a, b] && b in [a, b];
  }

  /** The rows after the 3-1 match, listed in insertion order. */
  lemma WinnerLeadsValues(a: Team, b: Team, m: Match)
    requires a.id != b.id
    requires m.teamA == a && m.teamB == b && m.status == Completed && m.scoreA == Some(3) && m.scoreB == Some(1)
    ensures Registered([a, b], [m])
    ensures Values(InsertionOrder([a, b]), Tally(InitialTable([a, b]), [m])) == [
      StandingEntry(a.id, a.name, a.logoUrl, 1, 1, 0, 0, 3, 1, 0, 3),
      StandingEntry(b.id, b.name, b.logoUrl, 1, 0, 0, 1, 1, 3, 0, 0)]
  {
    PairRegistered(a, b, m);
    RegisterTwo(a, b);
    WinnerLeadsTally(a, b, m);
  }

  /** The unsorted rows after the 3-1 match. */
  lemma WinnerLeadsRows(a: Team, b: Team, m: Match)
    requires a.id != b.id
    requires m.teamA == a && m.teamB == b && m.status == Completed && m.scoreA == Some(3) && m.scoreB == Some(1)
    ensures Registered([a, b], [m])
    ensures Unranked([a, b], [m]) == [
      StandingEntry(a.id, a.name, a.logoUrl, 1, 1, 0, 0, 3, 1, 2, 3),
      StandingEntry(b.id, b.name, b.logoUrl, 1, 0, 0, 1, 1, 3, -2, 0)]
  {
    WinnerLeadsValues(a, b, m);
    var v := Values(InsertionOrder([a, b]), Tally(InitialTable([a, b]), [m]));
    assert Unranked([a, b], [m]) == WithGoalDifference(v);
  }

  /** A worked case: two teams, one completed match won 3-1 by the first.
      The winner leads with 3 points and a goal difference of +2. */
  lemma WinnerLeadsExample(a: Team, b: Team, m: Match)
    requires a.id != b.id
    requires m.teamA == a && m.teamB == b && m.status == Completed && m.scoreA == Some(3) && m.scoreB == Some(1)
    ensures Registered([a, b], [m])
    ensures StandingsTable([a, b], [m]) == [
      StandingEntry(a.id, a.name, a.logoUrl, 1, 1, 0, 0, 3, 1, 2, 3),
      StandingEntry(b.id, b.name, b.logoUrl, 1, 0, 0, 1, 1, 3, -2, 0)]
  {
    WinnerLeadsRows(a, b, m);
    var u := Unranked([a, b], [m]);
    WinnerFirst(u[0], u[1]);
    RankOfSorted(u);
  }

  /** A row with 3 points ahead of a row with none is in order. */
  lemma WinnerFirst(x: StandingEntry, y: StandingEntry)
    requires x.points == 3 && y.points == 0
    ensures Sorted([x, y])
  {
    assert Compare(x, y) < 0;
  }
}
