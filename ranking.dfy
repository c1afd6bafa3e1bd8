/** The ordering step of `calculateStandings` (src/data/mock.ts:156-164):
    `Array.prototype.sort` with a points / goal-difference / goals-for
    comparator. The language requires that sort to be stable, so its result
    is fully determined; `Rank` is a stable insertion sort, and
    `RankIsTheStableSort` shows that every stable sort with this comparator
    returns the same sequence. */
module Ranking {

  import opened Types

  /** The ranking key, compared lexicographically, largest first. */
  function Key(e: StandingEntry): (int, int, int) {
    (e.points, e.goalDifference, e.goalsFor)
  }

  /** `a` belongs strictly above `b` in the table. */
  predicate Outranks(a: StandingEntry, b: StandingEntry) {
    || a.points > b.points
    || (a.points == b.points && a.goalDifference > b.goalDifference)
    || (a.points == b.points && a.goalDifference == b.goalDifference && a.goalsFor > b.goalsFor)
  }

  /** The comparator handed to `sort`: negative when `a` goes first. */
  function Compare(a: StandingEntry, b: StandingEntry): (c: int)
    ensures c < 0 <==> Outranks(a, b)
    ensures c > 0 <==> Outranks(b, a)
    ensures c == 0 <==> Key(a) == Key(b)
  {
    if b.points != a.points then b.points - a.points
    else if b.goalDifference != a.goalDifference then b.goalDifference - a.goalDifference
    else b.goalsFor - a.goalsFor
  }

  /** Ordered as the comparator asks: no entry is outranked by a later one. */
  ghost predicate Sorted(s: seq<StandingEntry>) {
    forall i, j :: 0 <= i < j < |s| ==> Compare(s[i], s[j]) <= 0
  }

  /** The entries of `s` whose key is `k`, in their order in `s`. */
  function Tied(s: seq<StandingEntry>, k: (int, int, int)): (t: seq<StandingEntry>)
    ensures |t| <= |s|
    ensures forall e :: e in t ==> e in s && Key(e) == k
  {
    if |s| == 0 then []
    else (if Key(s[0]) == k then [s[0]] else []) + Tied(s[1..], k)
  }

  /** Puts `x` in front of the first entry that does not outrank it. */
  function Insert(x: StandingEntry, s: seq<StandingEntry>): (r: seq<StandingEntry>)
    ensures multiset(r) == multiset(s) + multiset{x}
  {
    if |s| == 0 || !Outranks(s[0], x) then [x] + s
    else
      assert s == [s[0]] + s[1..];
      [s[0]] + Insert(x, s[1..])
  }

  /** The standings order: a stable sort by the comparator. */
  function Rank(s: seq<StandingEntry>): (r: seq<StandingEntry>)
    ensures Sorted(r)
    ensures multiset(r) == multiset(s)
  {
    if |s| == 0 then []
    else
      assert s == [s[0]] + s[1..];
      InsertSorted(s[0], Rank(s[1..]));
      Insert(s[0], Rank(s[1..]))
  }

  lemma {:induction false} InsertSorted(x: StandingEntry, s: seq<StandingEntry>)
    requires Sorted(s)
    ensures Sorted(Insert(x, s))
  {
    var r := Insert(x, s);
    if |s| == 0 || !Outranks(s[0], x) {
      forall j | 0 < j < |r| ensures Compare(r[0], r[j]) <= 0 {
        assert r[j] == s[j - 1];
        assert Compare(s[0], s[j - 1]) <= 0;
      }
    } else {
      var t := Insert(x, s[1..]);
      InsertSorted(x, s[1..]);
      assert r == [s[0]] + t;
      InsertMembers(x, s[1..]);
      forall j | 0 < j < |r| ensures Compare(r[0], r[j]) <= 0 {
        assert r[j] in t;
      }
    }
  }

  lemma InsertMembers(x: StandingEntry, s: seq<StandingEntry>)
    ensures forall e :: e in Insert(x, s) ==> e == x || e in s
  {
    forall e | e in Insert(x, s) ensures e == x || e in s {
      assert e in multiset(Insert(x, s));
    }
  }

  /** Inserting keeps the relative order of every class of tied entries. */
  lemma {:induction false} InsertTied(x: StandingEntry, s: seq<StandingEntry>, k: (int, int, int))
    ensures Tied(Insert(x, s), k) == Tied([x] + s, k)
  {
    if |s| == 0 || !Outranks(s[0], x) {
    } else {
      InsertTied(x, s[1..], k);
      assert ([s[0]] + Insert(x, s[1..]))[1..] == Insert(x, s[1..]);
      assert ([x] + s[1..])[1..] == s[1..];
      assert ([x] + s)[1..] == s;
      assert Key(s[0]) != Key(x);
    }
  }

  /** Stability: entries equal on all three keys keep their input order. */
  lemma {:induction false} RankStable(s: seq<StandingEntry>, k: (int, int, int))
    ensures Tied(Rank(s), k) == Tied(s, k)
  {
    if |s| > 0 {
      RankStable(s[1..], k);
      InsertTied(s[0], Rank(s[1..]), k);
      assert ([s[0]] + Rank(s[1..]))[1..] == Rank(s[1..]);
    }
  }

  /** Two sorted sequences that agree on every class of tied entries are equal. */
  lemma {:induction false} StableSortUnique(r1: seq<StandingEntry>, r2: seq<StandingEntry>)
    requires Sorted(r1) && Sorted(r2)
    requires forall k :: Tied(r1, k) == Tied(r2, k)
    ensures r1 == r2
  {
    if |r1| > 0 {
      assert Tied(r2, Key(r1[0])) == Tied(r1, Key(r1[0])) != [];
    }
    if |r2| > 0 {
      assert Tied(r1, Key(r2[0])) == Tied(r2, Key(r2[0])) != [];
    }
    if |r1| > 0 && |r2| > 0 {
      var k1, k2 := Key(r1[0]), Key(r2[0]);
      assert Tied(r1, k1)[0] == r1[0];
      assert Tied(r2, k1)[0] in r2;
      assert Tied(r2, k2)[0] == r2[0];
      assert Tied(r1, k2)[0] in r1;
      assert k1 == k2 by {
        var e2 :| e2 in r2 && Key(e2) == k1;
        var e1 :| e1 in r1 && Key(e1) == k2;
        assert Compare(r2[0], e2) <= 0;
        assert Compare(r1[0], e1) <= 0;
      }
      assert r1[0] == r2[0];
      forall k ensures Tied(r1[1..], k) == Tied(r2[1..], k) {
        var head := if k1 == k then [r1[0]] else [];
        assert Tied(r1, k) == head + Tied(r1[1..], k);
        assert Tied(r2, k) == head + Tied(r2[1..], k);
        assert Tied(r1[1..], k) == Tied(r1, k)[|head|..];
        assert Tied(r2[1..], k) == Tied(r2, k)[|head|..];
      }
      StableSortUnique(r1[1..], r2[1..]);
      assert r1 == [r1[0]] + r1[1..];
      assert r2 == [r2[0]] + r2[1..];
    }
  }

  /** Whatever stable sort the runtime uses, its result is `Rank(s)`. */
  lemma RankIsTheStableSort(s: seq<StandingEntry>, r: seq<StandingEntry>)
    requires Sorted(r)
    requires forall k :: Tied(r, k) == Tied(s, k)
    ensures r == Rank(s)
  {
    forall k ensures Tied(r, k) == Tied(Rank(s), k) {
      RankStable(s, k);
    }
    StableSortUnique(r, Rank(s));
  }

  /** An already ordered table is left as it is. */
  lemma RankOfSorted(s: seq<StandingEntry>)
    requires Sorted(s)
    ensures Rank(s) == s
  {
    RankIsTheStableSort(s, s);
  }
}
