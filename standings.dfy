/** Standings: the two sort comparators, Array.prototype.sort over team
    indices, the Buchholz tiebreak and the ranking built from them
    (script.js, calculateBuchholz and the sort in updateStandings). */
module Standings {
  import opened Types

  /** The source's two comparators: by original seed ascending
      (script.js:63, 113, 120), and by standing (script.js:392-396 and
      488-492): wins descending, Buchholz descending, original seed ascending. */
  datatype Comparator = BySeed | ByStanding

  /** The comparator as written: a negative number puts a before b. */
  function Compare(c: Comparator, a: Team, b: Team): int
  {
    match c
    case BySeed => a.originalSeed - b.originalSeed
    case ByStanding =>
      if b.wins != a.wins then b.wins - a.wins
      else if b.buchholz != a.buchholz then b.buchholz - a.buchholz
      else a.originalSeed - b.originalSeed
  }

  /** a comes before b in the standings. */
  function RanksAbove(a: Team, b: Team): (r: bool)
    ensures r <==> || a.wins > b.wins
                   || (a.wins == b.wins && a.buchholz > b.buchholz)
                   || (a.wins == b.wins && a.buchholz == b.buchholz && a.originalSeed < b.originalSeed)
  {
    Compare(ByStanding, a, b) < 0
  }

  /** What a negative comparison means: by seed, the lower original seed
      goes first; by standing, more wins, then the higher Buchholz, then the
      lower original seed. */
  lemma CompareSign(c: Comparator, a: Team, b: Team)
    ensures c == BySeed ==> (Compare(c, a, b) < 0 <==> a.originalSeed < b.originalSeed)
    ensures c == ByStanding ==>
      (Compare(c, a, b) < 0 <==>
         || a.wins > b.wins
         || (a.wins == b.wins && a.buchholz > b.buchholz)
         || (a.wins == b.wins && a.buchholz == b.buchholz && a.originalSeed < b.originalSeed))
  {
  }

  lemma CompareAntisymmetric(c: Comparator, a: Team, b: Team)
    ensures Compare(c, a, b) == -Compare(c, b, a)
  {
  }

  /** Only teams with the same original seed compare equal. */
  lemma CompareZeroMeansSameSeed(c: Comparator, a: Team, b: Team)
    ensures Compare(c, a, b) == 0 <==> a.originalSeed == b.originalSeed && (c == ByStanding ==> a.wins == b.wins && a.buchholz == b.buchholz)
  {
  }

  lemma CompareTransitive(c: Comparator, a: Team, b: Team, d: Team)
    requires Compare(c, a, b) <= 0 && Compare(c, b, d) <= 0
    ensures Compare(c, a, d) <= 0
  {
  }

  lemma CompareStrictTransitive(c: Comparator, a: Team, b: Team, d: Team)
    requires Compare(c, a, b) < 0 && Compare(c, b, d) < 0
    ensures Compare(c, a, d) < 0
  {
  }

  /** Because original seeds are unique, the standings comparator is a strict
      total order: never both ways, never neither way, and transitive. */
  lemma StandingOrderIsStrictTotal(a: Team, b: Team, d: Team)
    ensures !RanksAbove(a, a)
    ensures a.originalSeed != b.originalSeed ==> (RanksAbove(a, b) <==> !RanksAbove(b, a))
    ensures RanksAbove(a, b) && RanksAbove(b, d) ==> RanksAbove(a, d)
  {
  }

  /** Each team in s is placed no later than the comparator allows: every
      neighbour pair is in order. */
  ghost predicate Sorted(ts: seq<Team>, s: seq<nat>, c: Comparator)
  {
    && InRange(|ts|, s)
    && forall i :: 0 <= i < |s| - 1 ==> Compare(c, ts[s[i]], ts[s[i + 1]]) <= 0
  }

  /** As Sorted, with every neighbour pair strictly in order. */
  ghost predicate StrictlySorted(ts: seq<Team>, s: seq<nat>, c: Comparator)
  {
    && InRange(|ts|, s)
    && forall i :: 0 <= i < |s| - 1 ==> Compare(c, ts[s[i]], ts[s[i + 1]]) < 0
  }

  /** In a sorted list every earlier team is in order with every later one. */
  lemma {:induction false} SortedPairwise(ts: seq<Team>, s: seq<nat>, c: Comparator, i: nat, j: nat)
    requires Sorted(ts, s, c) && i < j < |s|
    ensures Compare(c, ts[s[i]], ts[s[j]]) <= 0
    decreases j - i
  {
    if i + 1 < j {
      SortedPairwise(ts, s, c, i + 1, j);
      CompareTransitive(c, ts[s[i]], ts[s[i + 1]], ts[s[j]]);
    }
  }

  /** In a strictly sorted list every earlier team strictly precedes every later one. */
  lemma {:induction false} StrictlySortedPairwise(ts: seq<Team>, s: seq<nat>, c: Comparator, i: nat, j: nat)
    requires StrictlySorted(ts, s, c) && i < j < |s|
    ensures Compare(c, ts[s[i]], ts[s[j]]) < 0
    decreases j - i
  {
    if i + 1 < j {
      StrictlySortedPairwise(ts, s, c, i + 1, j);
      CompareStrictTransitive(c, ts[s[i]], ts[s[i + 1]], ts[s[j]]);
    }
  }

  lemma StrictlySortedAllPairs(ts: seq<Team>, s: seq<nat>, c: Comparator)
    requires StrictlySorted(ts, s, c)
    ensures forall i, j :: 0 <= i < j < |s| ==> Compare(c, ts[s[i]], ts[s[j]]) < 0
  {
    forall i, j | 0 <= i < j < |s| ensures Compare(c, ts[s[i]], ts[s[j]]) < 0 {
      StrictlySortedPairwise(ts, s, c, i, j);
    }
  }

  /** Insert x into a list, in front of the first element it does not follow. */
  function Insert(ts: seq<Team>, c: Comparator, x: nat, s: seq<nat>): (r: seq<nat>)
    requires x < |ts| && InRange(|ts|, s)
    ensures multiset(r) == multiset(s) + multiset{x}
    ensures |r| == |s| + 1 && InRange(|ts|, r)
    ensures r[0] == x || (s != [] && r[0] == s[0])
    decreases |s|
  {
    if s == [] then [x]
    else if Compare(c, ts[x], ts[s[0]]) <= 0 then [x] + s
    else
      assert s == [s[0]] + s[1..];
      [s[0]] + Insert(ts, c, x, s[1..])
  }

  /** Putting a team in front of a sorted list keeps it sorted when the team
      is in order with the old head. */
  lemma SortedCons(ts: seq<Team>, c: Comparator, y: nat, s: seq<nat>)
    requires y < |ts| && Sorted(ts, s, c)
    requires s != [] ==> Compare(c, ts[y], ts[s[0]]) <= 0
    ensures Sorted(ts, [y] + s, c)
  {
    var r := [y] + s;
    forall i | 0 <= i < |r| - 1 ensures Compare(c, ts[r[i]], ts[r[i + 1]]) <= 0 {
      if i > 0 { assert r[i] == s[i - 1] && r[i + 1] == s[i]; }
    }
  }

  /** The strict counterpart of SortedCons. */
  lemma StrictlySortedCons(ts: seq<Team>, c: Comparator, y: nat, s: seq<nat>)
    requires y < |ts| && StrictlySorted(ts, s, c)
    requires s != [] ==> Compare(c, ts[y], ts[s[0]]) < 0
    ensures StrictlySorted(ts, [y] + s, c)
  {
    var r := [y] + s;
    forall i | 0 <= i < |r| - 1 ensures Compare(c, ts[r[i]], ts[r[i + 1]]) < 0 {
      if i > 0 { assert r[i] == s[i - 1] && r[i + 1] == s[i]; }
    }
  }

  /** Inserting into a sorted list keeps it sorted. */
  lemma {:induction false} InsertKeepsSorted(ts: seq<Team>, c: Comparator, x: nat, s: seq<nat>)
    requires x < |ts| && Sorted(ts, s, c)
    ensures Sorted(ts, Insert(ts, c, x, s), c)
    decreases |s|
  {
    if s == [] || Compare(c, ts[x], ts[s[0]]) <= 0 {
      SortedCons(ts, c, x, s);
    } else {
      var rest := Insert(ts, c, x, s[1..]);
      InsertKeepsSorted(ts, c, x, s[1..]);
      CompareAntisymmetric(c, ts[x], ts[s[0]]);
      assert Compare(c, ts[s[0]], ts[rest[0]]) <= 0 by {
        if rest[0] != x { assert rest[0] == s[1]; }
      }
      SortedCons(ts, c, s[0], rest);
    }
  }

  /** Inserting a new element into a strictly sorted list keeps it strictly
      sorted when seeds are unique. */
  lemma {:induction false} InsertKeepsStrictlySorted(ts: seq<Team>, c: Comparator, x: nat, s: seq<nat>)
    requires x < |ts| && StrictlySorted(ts, s, c)
    requires SeedsDistinct(ts) && x !in s
    ensures StrictlySorted(ts, Insert(ts, c, x, s), c)
    decreases |s|
  {
    if s == [] || Compare(c, ts[x], ts[s[0]]) <= 0 {
      if s != [] {
        CompareZeroMeansSameSeed(c, ts[x], ts[s[0]]);
      }
      StrictlySortedCons(ts, c, x, s);
    } else {
      var rest := Insert(ts, c, x, s[1..]);
      assert x !in s[1..];
      InsertKeepsStrictlySorted(ts, c, x, s[1..]);
      CompareAntisymmetric(c, ts[x], ts[s[0]]);
      assert Compare(c, ts[s[0]], ts[rest[0]]) < 0 by {
        if rest[0] != x { assert rest[0] == s[1]; }
      }
      StrictlySortedCons(ts, c, s[0], rest);
    }
  }

  /** One step of the sort: inserting the head into the sorted tail gives a
      sorted permutation of the whole list. */
  lemma SortStep(ts: seq<Team>, c: Comparator, ids: seq<nat>, rest: seq<nat>)
    requires InRange(|ts|, ids) && ids != []
    requires multiset(rest) == multiset(ids[1..]) && Sorted(ts, rest, c)
    requires SeedsDistinct(ts) && Distinct(ids[1..]) ==> StrictlySorted(ts, rest, c)
    ensures multiset(Insert(ts, c, ids[0], rest)) == multiset(ids)
    ensures Sorted(ts, Insert(ts, c, ids[0], rest), c)
    ensures SeedsDistinct(ts) && Distinct(ids) ==> StrictlySorted(ts, Insert(ts, c, ids[0], rest), c)
  {
    assert ids == [ids[0]] + ids[1..];
    InsertKeepsSorted(ts, c, ids[0], rest);
    if SeedsDistinct(ts) && Distinct(ids) {
      assert Distinct(ids[1..]);
      assert ids[0] !in multiset(ids[1..]);
      InsertKeepsStrictlySorted(ts, c, ids[0], rest);
    }
  }

  /** Array.prototype.sort with one of the two comparators, over team indices:
      a sorted permutation of its input. */
  function SortTeams(ts: seq<Team>, ids: seq<nat>, c: Comparator): (r: seq<nat>)
    requires InRange(|ts|, ids)
    ensures multiset(r) == multiset(ids)
    ensures |r| == |ids|
    ensures Sorted(ts, r, c)
    ensures SeedsDistinct(ts) && Distinct(ids) ==> StrictlySorted(ts, r, c)
    decreases |ids|
  {
    if ids == [] then []
    else
      var rest := SortTeams(ts, ids[1..], c);
      SortStep(ts, c, ids, rest);
      Insert(ts, c, ids[0], rest)
  }

  /** Removing the same first element from two permutations of each other
      leaves permutations of each other. */
  lemma HeadCancels(x: nat, p: seq<nat>, q: seq<nat>)
    requires multiset([x] + p) == multiset([x] + q)
    ensures multiset(p) == multiset(q)
  {
    assert multiset([x] + p) == multiset{x} + multiset(p);
    assert multiset([x] + q) == multiset{x} + multiset(q);
    assert forall e :: multiset(p)[e] == multiset([x] + p)[e] - (if e == x then 1 else 0);
  }

  /** Two strictly sorted permutations of each other start with the same team. */
  lemma SameHead(ts: seq<Team>, c: Comparator, a: seq<nat>, b: seq<nat>)
    requires StrictlySorted(ts, a, c) && StrictlySorted(ts, b, c)
    requires multiset(a) == multiset(b) && a != []
    ensures b != [] && a[0] == b[0]
  {
    assert a[0] in multiset(a);
    assert b != [];
    assert b[0] in multiset(b);
    var j :| 0 <= j < |b| && b[j] == a[0];
    var i :| 0 <= i < |a| && a[i] == b[0];
    if i != 0 && j != 0 {
      StrictlySortedPairwise(ts, a, c, 0, i);
      StrictlySortedPairwise(ts, b, c, 0, j);
      CompareAntisymmetric(c, ts[a[0]], ts[b[0]]);
      assert false;
    }
  }

  /** Two lists strictly sorted by the same comparator and holding the same
      elements are equal: any correct sort gives the result of SortTeams. */
  lemma {:induction false} StrictlySortedPermutationIsUnique(ts: seq<Team>, c: Comparator, a: seq<nat>, b: seq<nat>)
    requires StrictlySorted(ts, a, c) && StrictlySorted(ts, b, c)
    requires multiset(a) == multiset(b)
    ensures a == b
    decreases |a|
  {
    if a == [] {
      assert |multiset(b)| == 0;
    } else {
      SameHead(ts, c, a, b);
      var x := a[0];
      assert a == [x] + a[1..] && b == [x] + b[1..];
      HeadCancels(x, a[1..], b[1..]);
      assert StrictlySorted(ts, a[1..], c) && StrictlySorted(ts, b[1..], c);
      StrictlySortedPermutationIsUnique(ts, c, a[1..], b[1..]);
      assert a == [x] + a[1..] && b == [x] + b[1..];
    }
  }

  /** The indices 0 .. n-1 in order. */
  function Indices(n: nat): (r: seq<nat>)
    ensures |r| == n && Distinct(r) && InRange(n, r)
    ensures forall i :: 0 <= i < n ==> r[i] == i
  {
    seq(n, i requires 0 <= i < n => i)
  }

  /** The standings order of updateStandings (script.js:392-396): every team
      once, best first. */
  function Ranking(ts: seq<Team>): (r: seq<nat>)
    ensures multiset(r) == multiset(Indices(|ts|))
    ensures forall t :: 0 <= t < |ts| ==> t in r
    ensures Sorted(ts, r, ByStanding)
    ensures SeedsDistinct(ts) ==> forall i, j :: 0 <= i < j < |r| ==> RanksAbove(ts[r[i]], ts[r[j]])
  {
    var r := SortTeams(ts, Indices(|ts|), ByStanding);
    assert SeedsDistinct(ts) ==> forall i, j :: 0 <= i < j < |r| ==> RanksAbove(ts[r[i]], ts[r[j]]) by {
      if SeedsDistinct(ts) {
        StrictlySortedAllPairs(ts, r, ByStanding);
      }
    }
    assert forall t :: 0 <= t < |ts| ==> t in r by {
      forall t | 0 <= t < |ts| ensures t in r {
        assert Indices(|ts|)[t] == t;
        assert t in multiset(Indices(|ts|));
      }
    }
    r
  }

  /** Net record of a team: wins minus losses, as the opponent-strength measure. */
  function Net(t: Team): int
  {
    t.wins - t.losses
  }

  /** Whether a match was decided by a game (not a bye, not unresolved). */
  predicate Decisive(m: Match)
  {
    m.outcome == Some(Team1Win) || m.outcome == Some(Team2Win)
  }

  /** What one match adds to team t's Buchholz score (script.js:455-467): each
      side of a decisive match gets the other side's present net record. */
  function Contribution(ts: seq<Team>, m: Match, t: nat): int
    requires WellFormedMatch(|ts|, m)
  {
    if Decisive(m) then
      var winner := if m.outcome == Some(Team1Win) then m.team1 else m.team2.value;
      var loser := if m.outcome == Some(Team1Win) then m.team2.value else m.team1;
      (if winner == t then Net(ts[loser]) else 0) + (if loser == t then Net(ts[winner]) else 0)
    else 0
  }

  /** Buchholz score of team t: the contributions of all matches, in order. */
  function Buchholz(ts: seq<Team>, ms: seq<Match>, t: nat): int
    requires MatchesWellFormed(|ts|, ms)
    decreases |ms|
  {
    if ms == [] then 0
    else Buchholz(ts, ms[..|ms| - 1], t) + Contribution(ts, ms[|ms| - 1], t)
  }

  /** The team records with every Buchholz score recomputed from the match
      list and nothing else changed: what calculateBuchholz leaves behind. */
  function Rescored(ts: seq<Team>, ms: seq<Match>): (r: seq<Team>)
    requires MatchesWellFormed(|ts|, ms)
    ensures |r| == |ts|
    ensures forall t :: 0 <= t < |ts| ==> r[t] == ts[t].(buchholz := Buchholz(ts, ms, t))
  {
    seq(|ts|, t requires 0 <= t < |ts| => ts[t].(buchholz := Buchholz(ts, ms, t)))
  }

  /** A team that took part in no decisive match has Buchholz 0; byes and
      unresolved matches count for nothing. */
  lemma {:induction false} BuchholzWithoutDecisiveMatchIsZero(ts: seq<Team>, ms: seq<Match>, t: nat)
    requires MatchesWellFormed(|ts|, ms)
    requires forall k :: 0 <= k < |ms| && Decisive(ms[k]) ==> t !in Participants(ms[k])
    ensures Buchholz(ts, ms, t) == 0
    decreases |ms|
  {
    if ms != [] {
      BuchholzWithoutDecisiveMatchIsZero(ts, ms[..|ms| - 1], t);
    }
  }

  /** Buchholz reads only wins and losses: seeds, names, statuses and the
      stored Buchholz values themselves play no part. */
  lemma {:induction false} BuchholzReadsOnlyRecords(ts: seq<Team>, us: seq<Team>, ms: seq<Match>, t: nat)
    requires |ts| == |us| && MatchesWellFormed(|ts|, ms)
    requires forall i :: 0 <= i < |ts| ==> ts[i].wins == us[i].wins && ts[i].losses == us[i].losses
    ensures Buchholz(ts, ms, t) == Buchholz(us, ms, t)
    decreases |ms|
  {
    if ms != [] {
      BuchholzReadsOnlyRecords(ts, us, ms[..|ms| - 1], t);
    }
  }

  /** Appending unresolved matches (a freshly generated round) leaves every
      Buchholz score as it was. */
  lemma {:induction false} BuchholzIgnoresUnresolved(ts: seq<Team>, ms: seq<Match>, extra: seq<Match>, t: nat)
    requires MatchesWellFormed(|ts|, ms + extra)
    requires forall k :: 0 <= k < |extra| ==> extra[k].outcome.None?
    ensures MatchesWellFormed(|ts|, ms)
    ensures Buchholz(ts, ms + extra, t) == Buchholz(ts, ms, t)
    decreases |extra|
  {
    assert forall k :: 0 <= k < |ms| ==> (ms + extra)[k] == ms[k];
    if extra == [] {
      assert ms + extra == ms;
    } else {
      var all := ms + extra;
      var front := extra[..|extra| - 1];
      assert all[..|all| - 1] == ms + front;
      assert MatchesWellFormed(|ts|, ms + front) by {
        forall k | 0 <= k < |ms + front| ensures WellFormedMatch(|ts|, (ms + front)[k]) {
          assert (ms + front)[k] == all[k];
        }
      }
      BuchholzIgnoresUnresolved(ts, ms, front, t);
      assert all[|all| - 1] == extra[|extra| - 1];
      assert !Decisive(all[|all| - 1]);
      assert Buchholz(ts, all, t) == Buchholz(ts, ms + front, t) + Contribution(ts, all[|all| - 1], t);
    }
  }

  /** calculateBuchholz run twice in a row gives the same values: writing the
      scores back into the records does not change what they are computed from. */
  lemma BuchholzRecomputeIsStable(ts: seq<Team>, ms: seq<Match>, us: seq<Team>)
    requires MatchesWellFormed(|ts|, ms) && |us| == |ts|
    requires forall i :: 0 <= i < |ts| ==> us[i] == ts[i].(buchholz := Buchholz(ts, ms, i))
    ensures forall i :: 0 <= i < |us| ==> Buchholz(us, ms, i) == us[i].buchholz
  {
    forall i | 0 <= i < |us| ensures Buchholz(us, ms, i) == us[i].buchholz {
      BuchholzReadsOnlyRecords(ts, us, ms, i);
    }
  }
}
