/** Pairing generation: the fixed Round-1 bracket, the Round-2 reseed and
    bracket, and the Swiss pairing of later rounds (script.js, generatePairings
    and swissPairings). Each pairing routine takes the team records, the match
    history, the round number and the next free match id, and returns the new
    matches and the next free id; the caller appends them. */
module Pairing {
  import opened Types
  import opened Rules
  import opened Standings

  /* ---------------------------------------------------------------------- */
  /* Round 1                                                                */
  /* ---------------------------------------------------------------------- */

  /** Both list[i] and list[i + gap] exist in a list of length n: the test
      `!team1 || !team2` of the bracket loops fails. */
  predicate SlotFilled(n: int, i: int, gap: int)
  {
    0 <= i && i + gap < n
  }

  /** Round 1 (script.js:84-101): slot i in 0..7 pairs teams[i] with
      teams[i + 8]; a slot missing either team is skipped. Ids are handed out
      consecutively from nextId. */
  method Round1Pairings(ts: seq<Team>, round: nat, nextId: nat) returns (pairings: seq<Match>, next: nat)
    ensures next == nextId + |pairings|
    ensures |pairings| <= TOTAL_TEAMS / 2
    ensures forall i :: 0 <= i < TOTAL_TEAMS / 2 ==> (i < |pairings| <==> SlotFilled(|ts|, i, TOTAL_TEAMS / 2))
    ensures forall k :: 0 <= k < |pairings| ==>
      pairings[k] == Match(nextId + k, round, k, Some(k + TOTAL_TEAMS / 2), None, true)
  {
    pairings := [];
    next := nextId;
    var i := 0;
    while i < TOTAL_TEAMS / 2
      invariant 0 <= i <= TOTAL_TEAMS / 2
      invariant next == nextId + |pairings|
      invariant |pairings| <= i
      invariant SlotFilled(|ts|, i - 1, TOTAL_TEAMS / 2) ==> |pairings| == i
      invariant forall j :: 0 <= j < i ==> (j < |pairings| <==> SlotFilled(|ts|, j, TOTAL_TEAMS / 2))
      invariant forall k :: 0 <= k < |pairings| ==>
        pairings[k] == Match(nextId + k, round, k, Some(k + TOTAL_TEAMS / 2), None, true)
    {
      if i < |ts| && i + TOTAL_TEAMS / 2 < |ts| {
        pairings := pairings + [Match(next, round, i, Some(i + TOTAL_TEAMS / 2), None, true)];
        next := next + 1;
      }
      i := i + 1;
    }
  }

  /** The Round-1 bracket as it stands in the match list: the first eight
      matches are single games of round 1 pairing index k with index k + 8, and
      no later match belongs to round 1. */
  ghost predicate Round1Shape(ms: seq<Match>)
  {
    && |ms| >= TOTAL_TEAMS / 2
    && (forall k :: 0 <= k < TOTAL_TEAMS / 2 ==>
          && ms[k].round == 1 && ms[k].team1 == k
          && ms[k].team2 == Some(k + TOTAL_TEAMS / 2) && ms[k].isBo1)
    && (forall k :: TOTAL_TEAMS / 2 <= k < |ms| ==> ms[k].round != 1)
  }

  /** The Round-1 match of team index t. */
  function Round1Slot(t: nat): nat
  {
    t % (TOTAL_TEAMS / 2)
  }

  /** The slot arithmetic of the Round-1 bracket. */
  lemma Round1SlotOf(t: nat)
    requires t < TOTAL_TEAMS
    ensures Round1Slot(t) == if t < TOTAL_TEAMS / 2 then t else t - TOTAL_TEAMS / 2
  {
  }

  /** In the Round-1 bracket every one of the 16 teams plays, and plays in
      exactly one match. */
  lemma Round1PairsEveryTeamOnce(ms: seq<Match>)
    requires Round1Shape(ms)
    ensures forall t :: 0 <= t < TOTAL_TEAMS ==> t in Participants(ms[Round1Slot(t)])
    ensures forall k, t :: 0 <= k < TOTAL_TEAMS / 2 && t in Participants(ms[k]) ==> k == Round1Slot(t)
  {
    forall t | 0 <= t < TOTAL_TEAMS
      ensures t in Participants(ms[Round1Slot(t)])
    {
      Round1SlotOf(t);
    }
    forall k, t | 0 <= k < TOTAL_TEAMS / 2 && t in Participants(ms[k])
      ensures k == Round1Slot(t)
    {
      assert t == k || t == k + TOTAL_TEAMS / 2;
      Round1SlotOf(t);
    }
  }

  /* ---------------------------------------------------------------------- */
  /* Round 2                                                                */
  /* ---------------------------------------------------------------------- */

  /** A Round-1 match won from slot 1, by score or by a bye. */
  predicate WonFromSlot1(m: Match)
  {
    m.round == 1 && (m.outcome == Some(Team1Win) || m.outcome == Some(Bye))
  }

  /** A Round-1 match won from slot 2. */
  predicate WonFromSlot2(m: Match)
  {
    m.round == 1 && m.outcome == Some(Team2Win)
  }

  /** The list the source names winners (script.js:104-105): team1 of every
      Round-1 match that team1 won or that was a bye, in match order. */
  function Slot1Winners(ts: seq<Team>, ms: seq<Match>): (r: seq<nat>)
    requires MatchesWellFormed(|ts|, ms)
    ensures InRange(|ts|, r)
    ensures forall x :: x in r <==> exists k :: 0 <= k < |ms| && WonFromSlot1(ms[k]) && ms[k].team1 == x
    decreases |ms|
  {
    if ms == [] then []
    else
      var rest := Slot1Winners(ts, ms[1..]);
      assert forall x :: x in rest ==> exists k :: 0 <= k < |ms| && WonFromSlot1(ms[k]) && ms[k].team1 == x by {
        forall x | x in rest ensures exists k :: 0 <= k < |ms| && WonFromSlot1(ms[k]) && ms[k].team1 == x {
          var j :| 0 <= j < |ms[1..]| && WonFromSlot1(ms[1..][j]) && ms[1..][j].team1 == x;
          assert ms[j + 1] == ms[1..][j];
        }
      }
      (if WonFromSlot1(ms[0]) then [ms[0].team1] else []) + rest
  }

  /** The list the source names losers (script.js:106): team2 of every
      Round-1 match won by Team2Win. That team is the match's winner. */
  function Slot2Winners(ts: seq<Team>, ms: seq<Match>): (r: seq<nat>)
    requires MatchesWellFormed(|ts|, ms)
    ensures InRange(|ts|, r)
    ensures forall x :: x in r <==> exists k :: 0 <= k < |ms| && WonFromSlot2(ms[k]) && ms[k].team2 == Some(x)
    decreases |ms|
  {
    if ms == [] then []
    else
      var rest := Slot2Winners(ts, ms[1..]);
      assert forall x :: x in rest ==> exists k :: 0 <= k < |ms| && WonFromSlot2(ms[k]) && ms[k].team2 == Some(x) by {
        forall x | x in rest ensures exists k :: 0 <= k < |ms| && WonFromSlot2(ms[k]) && ms[k].team2 == Some(x) {
          var j :| 0 <= j < |ms[1..]| && WonFromSlot2(ms[1..][j]) && ms[1..][j].team2 == Some(x);
          assert ms[j + 1] == ms[1..][j];
        }
      }
      (if WonFromSlot2(ms[0]) then [ms[0].team2.value] else []) + rest
  }

  /** Sorting keeps exactly the members it was given. */
  lemma SortKeepsMembers(ts: seq<Team>, ids: seq<nat>, c: Comparator)
    requires InRange(|ts|, ids)
    ensures forall x :: x in SortTeams(ts, ids, c) <==> x in ids
  {
    var r := SortTeams(ts, ids, c);
    forall x ensures x in r <==> x in ids {
      assert x in r <==> x in multiset(r);
      assert x in ids <==> x in multiset(ids);
    }
  }

  /** The first list sorted by original seed (script.js:113). */
  function UpperSeeded(ts: seq<Team>, ms: seq<Match>): (r: seq<nat>)
    requires MatchesWellFormed(|ts|, ms)
    ensures InRange(|ts|, r)
  {
    SortTeams(ts, Slot1Winners(ts, ms), BySeed)
  }

  /** The second list sorted by original seed (script.js:120). */
  function LowerSeeded(ts: seq<Team>, ms: seq<Match>): (r: seq<nat>)
    requires MatchesWellFormed(|ts|, ms)
    ensures InRange(|ts|, r)
  {
    SortTeams(ts, Slot2Winners(ts, ms), BySeed)
  }

  /** Each of the two lists is its slot's winners in original-seed order. */
  lemma SeededListsSorted(ts: seq<Team>, ms: seq<Match>)
    requires MatchesWellFormed(|ts|, ms)
    ensures multiset(UpperSeeded(ts, ms)) == multiset(Slot1Winners(ts, ms)) && Sorted(ts, UpperSeeded(ts, ms), BySeed)
    ensures multiset(LowerSeeded(ts, ms)) == multiset(Slot2Winners(ts, ms)) && Sorted(ts, LowerSeeded(ts, ms), BySeed)
  {
  }

  /** reseededTeams (script.js:127): the two sorted lists one after the other. */
  function Reseeded(ts: seq<Team>, ms: seq<Match>): (r: seq<nat>)
    requires MatchesWellFormed(|ts|, ms)
    ensures InRange(|ts|, r)
    ensures |r| == |Slot1Winners(ts, ms)| + |Slot2Winners(ts, ms)|
  {
    UpperSeeded(ts, ms) + LowerSeeded(ts, ms)
  }

  /** Every team of the reseeded list won a Round-1 match. */
  /** A Round-1 match won from slot 1 is a win for its team1. */
  lemma Slot1WinIsWin(n: nat, m: Match)
    requires WellFormedMatch(n, m) && WonFromSlot1(m)
    ensures Won(m, m.team1)
  {
  }

  /** A Round-1 match won from slot 2 is a win for its team2. */
  lemma Slot2WinIsWin(n: nat, m: Match)
    requires WellFormedMatch(n, m) && WonFromSlot2(m)
    ensures m.team2.Some? && Won(m, m.team2.value)
  {
  }

  lemma ReseededOnlyWinners(ts: seq<Team>, ms: seq<Match>)
    requires MatchesWellFormed(|ts|, ms)
    ensures forall x :: x in Reseeded(ts, ms) ==> exists k :: 0 <= k < |ms| && ms[k].round == 1 && Won(ms[k], x)
  {
    var u := UpperSeeded(ts, ms);
    var l := LowerSeeded(ts, ms);
    SortKeepsMembers(ts, Slot1Winners(ts, ms), BySeed);
    SortKeepsMembers(ts, Slot2Winners(ts, ms), BySeed);
    forall x | x in Reseeded(ts, ms)
      ensures exists k :: 0 <= k < |ms| && ms[k].round == 1 && Won(ms[k], x)
    {
      if x in u {
        assert x in Slot1Winners(ts, ms);
        var k :| 0 <= k < |ms| && WonFromSlot1(ms[k]) && ms[k].team1 == x;
        Slot1WinIsWin(|ts|, ms[k]);
      } else {
        assert x in l;
        assert x in Slot2Winners(ts, ms);
        var k :| 0 <= k < |ms| && WonFromSlot2(ms[k]) && ms[k].team2 == Some(x);
        Slot2WinIsWin(|ts|, ms[k]);
      }
    }
  }

  /** Every Round-1 winner is in the reseeded list, whichever slot it won from. */
  lemma WinnersAllReseeded(ts: seq<Team>, ms: seq<Match>, k: nat, x: nat)
    requires MatchesWellFormed(|ts|, ms)
    requires k < |ms| && ms[k].round == 1 && Won(ms[k], x)
    ensures x in Reseeded(ts, ms)
  {
    if ms[k].outcome == Some(Team2Win) {
      assert WonFromSlot2(ms[k]) && ms[k].team2 == Some(x);
      assert x in Slot2Winners(ts, ms);
      SortKeepsMembers(ts, Slot2Winners(ts, ms), BySeed);
      assert x in LowerSeeded(ts, ms);
    } else {
      assert WonFromSlot1(ms[k]) && ms[k].team1 == x;
      assert x in Slot1Winners(ts, ms);
      SortKeepsMembers(ts, Slot1Winners(ts, ms), BySeed);
      assert x in UpperSeeded(ts, ms);
    }
  }

  /** As written, the reseeded list holds exactly the teams that won a
      Round-1 match: the list named losers is made of winners too. */
  lemma ReseededAreRound1Winners(ts: seq<Team>, ms: seq<Match>)
    requires MatchesWellFormed(|ts|, ms)
    ensures forall x :: x in Reseeded(ts, ms) <==> exists k :: 0 <= k < |ms| && ms[k].round == 1 && Won(ms[k], x)
  {
    ReseededOnlyWinners(ts, ms);
    forall x, k | 0 <= k < |ms| && ms[k].round == 1 && Won(ms[k], x)
      ensures x in Reseeded(ts, ms)
    {
      WinnersAllReseeded(ts, ms, k, x);
    }
  }

  /** How many slots i in lo..hi-1 find both reseeded[i] and reseeded[i + 4]
      in a list of length n: since the slots that fit come first, the count
      is the number of i in lo..hi-1 below n - 4. */
  function BracketSlots(n: int, lo: nat, hi: nat): (c: nat)
    requires lo <= hi
    ensures c <= hi - lo
  {
    if n - 4 - lo <= 0 then 0
    else if n - 4 - lo >= hi - lo then hi - lo
    else n - 4 - lo
  }

  /** The slots counted are exactly the first ones, and they are exactly
      the slots whose two teams both exist. */
  lemma BracketSlotsAreFilledSlots(n: int, lo: nat, hi: nat)
    requires lo <= hi
    ensures forall i :: lo <= i < hi ==> (i < lo + BracketSlots(n, lo, hi) <==> SlotFilled(n, i, 4))
  {
  }

  /** The last position of t in s, if t occurs in s. */
  function LastIndex(s: seq<nat>, t: nat): (r: Option<nat>)
    ensures r.Some? ==> r.value < |s| && s[r.value] == t && forall j :: r.value < j < |s| ==> s[j] != t
    ensures r.None? ==> t !in s
  {
    if s == [] then None
    else if s[|s| - 1] == t then Some(|s| - 1)
    else LastIndex(s[..|s| - 1], t)
  }

  /** The currentSeed team t holds once the teams of s have received base,
      base + 1, ... in turn: a team listed twice keeps the seed of its last
      position, and a team not listed keeps its current seed. */
  function SeedAfter(s: seq<nat>, base: int, t: nat, current: int): int
  {
    match LastIndex(s, t)
    case Some(k) => base + k
    case None => current
  }

  /** The forEach loops of script.js:115-117 and 122-124: each team of s in
      turn receives currentSeed base + its position. Nothing else changes. */
  method AssignSeeds(ts: seq<Team>, s: seq<nat>, base: int) returns (teams: seq<Team>)
    requires InRange(|ts|, s)
    ensures |teams| == |ts|
    ensures forall t :: 0 <= t < |ts| ==>
      teams[t] == ts[t].(currentSeed := SeedAfter(s, base, t, ts[t].currentSeed))
  {
    teams := ts;
    var k := 0;
    while k < |s|
      invariant 0 <= k <= |s|
      invariant |teams| == |ts|
      invariant forall t :: 0 <= t < |ts| ==>
        teams[t] == ts[t].(currentSeed := SeedAfter(s[..k], base, t, ts[t].currentSeed))
    {
      assert s[..k + 1][..k] == s[..k];
      teams := teams[s[k] := teams[s[k]].(currentSeed := base + k)];
      k := k + 1;
    }
    assert s[..k] == s;
  }

  /** The Round-2 bracket over a reseeded list r: first the upper slots,
      r[i] against r[i + 4] for i in 0..3, then the lower slots for i in
      8..11, each kept only when both teams exist; ids run from nextId. */
  function Bracket(r: seq<nat>, round: nat, nextId: nat): (ps: seq<Match>)
    ensures |ps| == BracketSlots(|r|, 0, 4) + BracketSlots(|r|, 8, 12)
    ensures forall k :: 0 <= k < |ps| ==>
      && ps[k].id == nextId + k && ps[k].round == round && ps[k].outcome.None? && ps[k].isBo1
      && ps[k].team1 in r && ps[k].team2.Some? && ps[k].team2.value in r
  {
    var upper := BracketSlots(|r|, 0, 4);
    seq(upper + BracketSlots(|r|, 8, 12), k requires 0 <= k < upper + BracketSlots(|r|, 8, 12) =>
      if k < upper then Match(nextId + k, round, r[k], Some(r[k + 4]), None, true)
      else Match(nextId + k, round, r[k - upper + 8], Some(r[k - upper + 12]), None, true))
  }

  /** Every team playing in the bracket comes from the reseeded list. */
  lemma BracketTeamsFromList(r: seq<nat>, round: nat, nextId: nat)
    ensures forall k, t :: 0 <= k < |Bracket(r, round, nextId)| && t in Participants(Bracket(r, round, nextId)[k]) ==> t in r
  {
    var ps := Bracket(r, round, nextId);
    forall k, t | 0 <= k < |ps| && t in Participants(ps[k]) ensures t in r {
      assert t == ps[k].team1 || t == ps[k].team2.value;
    }
  }

  /** The two bracket loops of Round 2 (script.js:135-168), skipping any
      slot that runs past the end of the list. */
  method BracketPairings(reseeded: seq<nat>, round: nat, nextId: nat) returns (pairings: seq<Match>, next: nat)
    ensures pairings == Bracket(reseeded, round, nextId)
    ensures next == nextId + |pairings|
  {
    ghost var spec := Bracket(reseeded, round, nextId);
    ghost var upper := BracketSlots(|reseeded|, 0, 4);
    pairings := [];
    next := nextId;
    var i := 0;
    while i < 4
      invariant 0 <= i <= 4
      invariant next == nextId + |pairings|
      invariant |pairings| == BracketSlots(|reseeded|, 0, i)
      invariant forall k :: 0 <= k < |pairings| ==> pairings[k] == spec[k]
    {
      if i < |reseeded| && i + 4 < |reseeded| {
        pairings := pairings + [Match(next, round, reseeded[i], Some(reseeded[i + 4]), None, true)];
        next := next + 1;
      }
      i := i + 1;
    }
    i := 8;
    while i < 12
      invariant 8 <= i <= 12
      invariant next == nextId + |pairings|
      invariant |pairings| == upper + BracketSlots(|reseeded|, 8, i)
      invariant forall k :: 0 <= k < |pairings| ==> pairings[k] == spec[k]
    {
      if i < |reseeded| && i + 4 < |reseeded| {
        pairings := pairings + [Match(next, round, reseeded[i], Some(reseeded[i + 4]), None, true)];
        next := next + 1;
      }
      i := i + 1;
    }
  }

  /** Round 2 (script.js:102-168): reseed, then pair the reseeded list. The
      returned records differ from the given ones in currentSeed only: the
      first sorted list receives 1, 2, ... and then the second 9, 10, .... */
  method Round2Pairings(ts: seq<Team>, ms: seq<Match>, round: nat, nextId: nat)
    returns (teams: seq<Team>, pairings: seq<Match>, next: nat)
    requires MatchesWellFormed(|ts|, ms)
    ensures |teams| == |ts|
    ensures forall t :: 0 <= t < |ts| ==>
      teams[t] == ts[t].(currentSeed := SeedAfter(LowerSeeded(ts, ms), 9, t,
                                          SeedAfter(UpperSeeded(ts, ms), 1, t, ts[t].currentSeed)))
    ensures pairings == Bracket(Reseeded(ts, ms), round, nextId)
    ensures next == nextId + |pairings|
  {
    var winners := UpperSeeded(ts, ms);
    var up := AssignSeeds(ts, winners, 1);
    var losers := LowerSeeded(ts, ms);
    teams := AssignSeeds(up, losers, 9);
    var reseeded := winners + losers;
    pairings, next := BracketPairings(reseeded, round, nextId);
  }

  /* ---------------------------------------------------------------------- */
  /* Round 2 after a full Round 1                                           */
  /* ---------------------------------------------------------------------- */

  /** The number of resolved Round-1 matches. */
  function Resolved1(ms: seq<Match>): nat
    decreases |ms|
  {
    if ms == [] then 0
    else (if ms[0].round == 1 && ms[0].outcome.Some? then 1 else 0) + Resolved1(ms[1..])
  }

  /** Each resolved Round-1 match puts exactly one team in one of the two lists. */
  lemma {:induction false} SlotListsCount(ts: seq<Team>, ms: seq<Match>)
    requires MatchesWellFormed(|ts|, ms)
    ensures |Slot1Winners(ts, ms)| + |Slot2Winners(ts, ms)| == Resolved1(ms)
    decreases |ms|
  {
    if ms != [] {
      SlotListsCount(ts, ms[1..]);
    }
  }

  /** When the resolved Round-1 matches are exactly the first n, there are n. */
  lemma {:induction false} Resolved1Prefix(ms: seq<Match>, n: nat)
    requires n <= |ms|
    requires forall k :: 0 <= k < |ms| ==> (ms[k].round == 1 && ms[k].outcome.Some? <==> k < n)
    ensures Resolved1(ms) == n
    decreases |ms|
  {
    if ms != [] {
      assert ms[0].round == 1 && ms[0].outcome.Some? <==> 0 < n;
      var m := if n > 0 then n - 1 else 0;
      forall k | 0 <= k < |ms[1..]|
        ensures ms[1..][k].round == 1 && ms[1..][k].outcome.Some? <==> k < m
      {
        assert ms[1..][k] == ms[k + 1];
      }
      Resolved1Prefix(ms[1..], m);
    }
  }

  /** Prepending a new element keeps a sequence free of repeats. */
  lemma DistinctCons(h: nat, s: seq<nat>)
    requires Distinct(s) && h !in s
    ensures Distinct([h] + s)
  {
    var r := [h] + s;
    forall i, j | 0 <= i < j < |r| ensures r[i] != r[j] {
      assert r[j] == s[j - 1];
      if i > 0 {
        assert r[i] == s[i - 1];
      }
    }
  }

  /** When no two slot-1 winners share a team, the first list has no repeats. */
  lemma {:induction false} Slot1WinnersDistinct(ts: seq<Team>, ms: seq<Match>)
    requires MatchesWellFormed(|ts|, ms)
    requires forall k, l :: 0 <= k < l < |ms| && WonFromSlot1(ms[k]) && WonFromSlot1(ms[l]) ==> ms[k].team1 != ms[l].team1
    ensures Distinct(Slot1Winners(ts, ms))
    decreases |ms|
  {
    if ms != [] {
      var tail := ms[1..];
      forall k, l | 0 <= k < l < |tail| && WonFromSlot1(tail[k]) && WonFromSlot1(tail[l])
        ensures tail[k].team1 != tail[l].team1
      {
        assert tail[k] == ms[k + 1] && tail[l] == ms[l + 1];
      }
      Slot1WinnersDistinct(ts, tail);
      if WonFromSlot1(ms[0]) {
        DistinctCons(ms[0].team1, Slot1Winners(ts, tail));
      }
    }
  }

  /** When no two slot-2 winners share a team, the second list has no repeats. */
  lemma {:induction false} Slot2WinnersDistinct(ts: seq<Team>, ms: seq<Match>)
    requires MatchesWellFormed(|ts|, ms)
    requires forall k, l :: 0 <= k < l < |ms| && WonFromSlot2(ms[k]) && WonFromSlot2(ms[l]) ==> ms[k].team2 != ms[l].team2
    ensures Distinct(Slot2Winners(ts, ms))
    decreases |ms|
  {
    if ms != [] {
      var tail := ms[1..];
      forall k, l | 0 <= k < l < |tail| && WonFromSlot2(tail[k]) && WonFromSlot2(tail[l])
        ensures tail[k].team2 != tail[l].team2
      {
        assert tail[k] == ms[k + 1] && tail[l] == ms[l + 1];
      }
      Slot2WinnersDistinct(ts, tail);
      if WonFromSlot2(ms[0]) {
        DistinctCons(ms[0].team2.value, Slot2Winners(ts, tail));
      }
    }
  }

  /** A list sorted strictly by original seed has no repeats. */
  lemma StrictlySortedIsDistinct(ts: seq<Team>, s: seq<nat>, c: Comparator)
    requires StrictlySorted(ts, s, c)
    ensures Distinct(s)
  {
    StrictlySortedAllPairs(ts, s, c);
  }

  /** After a complete Round 1 the two lists hold 8 teams between them. */
  lemma FullRound1ReseedSize(ts: seq<Team>, ms: seq<Match>)
    requires MatchesWellFormed(|ts|, ms) && Round1Shape(ms) && RoundComplete(ms, 1)
    ensures |Reseeded(ts, ms)| == TOTAL_TEAMS / 2
  {
    SlotListsCount(ts, ms);
    Resolved1Prefix(ms, TOTAL_TEAMS / 2);
  }

  /** In the Round-1 bracket no team is listed twice in the reseeded list. */
  lemma FullRound1ReseedDistinct(ts: seq<Team>, ms: seq<Match>)
    requires SeedsDistinct(ts) && MatchesWellFormed(|ts|, ms) && Round1Shape(ms)
    ensures Distinct(Reseeded(ts, ms))
  {
    var s1 := Slot1Winners(ts, ms);
    var s2 := Slot2Winners(ts, ms);
    Slot1WinnersDistinct(ts, ms);
    Slot2WinnersDistinct(ts, ms);
    var u := UpperSeeded(ts, ms);
    var l := LowerSeeded(ts, ms);
    StrictlySortedIsDistinct(ts, u, BySeed);
    StrictlySortedIsDistinct(ts, l, BySeed);
    SortKeepsMembers(ts, s1, BySeed);
    SortKeepsMembers(ts, s2, BySeed);
    // slot-1 winners are below 8, slot-2 winners at or above 8
    forall x | x in u ensures x < TOTAL_TEAMS / 2 {
      var k :| 0 <= k < |ms| && WonFromSlot1(ms[k]) && ms[k].team1 == x;
    }
    forall x | x in l ensures x >= TOTAL_TEAMS / 2 {
      var k :| 0 <= k < |ms| && WonFromSlot2(ms[k]) && ms[k].team2 == Some(x);
    }
    var r := u + l;
    forall i, j | 0 <= i < j < |r| ensures r[i] != r[j] {
      if j < |u| {
      } else if i >= |u| {
        assert r[i] == l[i - |u|] && r[j] == l[j - |u|];
      } else {
        assert r[i] in u && r[j] in l;
      }
    }
  }

  /** A Round-1 match that team t won is the match of t's Round-1 slot. */
  lemma Round1WinIsInSlot(ms: seq<Match>, k: nat, t: nat)
    requires Round1Shape(ms) && k < |ms| && ms[k].round == 1 && Won(ms[k], t)
    ensures Round1Slot(t) == k
  {
    assert k < TOTAL_TEAMS / 2;
    assert t == k || t == k + TOTAL_TEAMS / 2;
  }

  /** A reseeded team won its own Round-1 match. */
  lemma ReseededWonItsSlot(ts: seq<Team>, ms: seq<Match>, t: nat)
    requires MatchesWellFormed(|ts|, ms) && Round1Shape(ms)
    requires t < TOTAL_TEAMS && t in Reseeded(ts, ms)
    ensures Won(ms[Round1Slot(t)], t)
  {
    ReseededOnlyWinners(ts, ms);
    var k :| 0 <= k < |ms| && ms[k].round == 1 && Won(ms[k], t);
    Round1WinIsInSlot(ms, k, t);
  }

  /** In the Round-1 bracket a team is reseeded exactly when it won its
      Round-1 match. */
  lemma FullRound1ReseedMembers(ts: seq<Team>, ms: seq<Match>)
    requires |ts| == TOTAL_TEAMS && MatchesWellFormed(|ts|, ms) && Round1Shape(ms)
    ensures forall t :: 0 <= t < TOTAL_TEAMS ==> (t in Reseeded(ts, ms) <==> Won(ms[Round1Slot(t)], t))
  {
    forall t | 0 <= t < TOTAL_TEAMS
      ensures t in Reseeded(ts, ms) <==> Won(ms[Round1Slot(t)], t)
    {
      Round1SlotOf(t);
      if t in Reseeded(ts, ms) {
        ReseededWonItsSlot(ts, ms, t);
      }
      if Won(ms[Round1Slot(t)], t) {
        WinnersAllReseeded(ts, ms, Round1Slot(t), t);
      }
    }
  }

  /** After a complete Round 1 of the 16-team bracket, the reseeded list
      holds the 8 Round-1 winners once each and no loser. So the upper
      bracket makes its 4 matches and the lower bracket, which would need a
      list of at least 13, makes none. */
  lemma FullRound1Reseed(ts: seq<Team>, ms: seq<Match>, round: nat, nextId: nat)
    requires |ts| == TOTAL_TEAMS && SeedsDistinct(ts) && MatchesWellFormed(|ts|, ms)
    requires Round1Shape(ms) && RoundComplete(ms, 1)
    ensures |Reseeded(ts, ms)| == TOTAL_TEAMS / 2
    ensures |Bracket(Reseeded(ts, ms), round, nextId)| == 4
    ensures Distinct(Reseeded(ts, ms))
    ensures forall t :: 0 <= t < TOTAL_TEAMS ==> (t in Reseeded(ts, ms) <==> Won(ms[Round1Slot(t)], t))
  {
    FullRound1ReseedSize(ts, ms);
    FullRound1ReseedDistinct(ts, ms);
    FullRound1ReseedMembers(ts, ms);
  }

  /* ---------------------------------------------------------------------- */
  /* Swiss rounds                                                           */
  /* ---------------------------------------------------------------------- */

  /** The active teams among the first n, in index order. */
  function ActiveBelow(ts: seq<Team>, n: nat): (r: seq<nat>)
    requires n <= |ts|
    ensures forall t: nat :: t in r <==> t < n && ts[t].status == Active
    ensures forall i, j :: 0 <= i < j < |r| ==> r[i] < r[j]
    ensures InRange(n, r)
  {
    if n == 0 then []
    else ActiveBelow(ts, n - 1) + (if ts[n - 1].status == Active then [n - 1] else [])
  }

  /** teams.filter(t => t.status === Active) (script.js:485). */
  function ActiveTeams(ts: seq<Team>): (r: seq<nat>)
    ensures forall t: nat :: t in r <==> t < |ts| && ts[t].status == Active
    ensures Distinct(r) && InRange(|ts|, r)
  {
    ActiveBelow(ts, |ts|)
  }

  /** The hasPlayed test (script.js:503-506): some earlier match put a and b
      against each other, in either slot order. */
  predicate HasPlayed(ms: seq<Match>, a: nat, b: nat)
  {
    exists k :: 0 <= k < |ms| &&
      ((ms[k].team1 == a && ms[k].team2 == Some(b)) || (ms[k].team1 == b && ms[k].team2 == Some(a)))
  }

  /** The test does not depend on which team is named first. */
  lemma HasPlayedSymmetric(ms: seq<Match>, a: nat, b: nat)
    ensures HasPlayed(ms, a, b) <==> HasPlayed(ms, b, a)
  {
  }

  /** sortedTeams.filter(t => !used.has(t)) (script.js:529): the unused
      teams in their order; the first is the first unused team of s. */
  function Unused(s: seq<nat>, used: set<nat>): (r: seq<nat>)
    ensures forall x :: x in r <==> x in s && x !in used
    ensures r != [] ==> exists p :: 0 <= p < |s| && s[p] == r[0] && forall q :: 0 <= q < p ==> s[q] in used
  {
    if s == [] then []
    else if s[0] in used then
      var rest := Unused(s[1..], used);
      assert rest != [] ==> exists p :: 0 <= p < |s| && s[p] == rest[0] && forall q :: 0 <= q < p ==> s[q] in used by {
        if rest != [] {
          var p :| 0 <= p < |s[1..]| && s[1..][p] == rest[0] && forall q :: 0 <= q < p ==> s[1..][q] in used;
          assert s[p + 1] == rest[0];
          forall q | 0 <= q < p + 1 ensures s[q] in used {
            if q > 0 {
              assert s[q] == s[1..][q - 1];
            }
          }
        }
      }
      rest
    else
      [s[0]] + Unused(s[1..], used)
  }

  /** The teams that play a two-team match in ps. */
  function PairedIn(ps: seq<Match>): set<nat>
  {
    if ps == [] then {}
    else if ps[|ps| - 1].team2.Some? then PairedIn(ps[..|ps| - 1]) + Participants(ps[|ps| - 1])
    else PairedIn(ps[..|ps| - 1])
  }

  /** A team is in PairedIn(ps) exactly when it plays one of the two-team
      matches of ps. */
  lemma {:induction false} PairedInMeans(ps: seq<Match>)
    ensures forall t :: t in PairedIn(ps) <==> exists k :: 0 <= k < |ps| && ps[k].team2.Some? && t in Participants(ps[k])
  {
    if ps != [] {
      var front := ps[..|ps| - 1];
      PairedInMeans(front);
      forall t ensures t in PairedIn(ps) <==> exists k :: 0 <= k < |ps| && ps[k].team2.Some? && t in Participants(ps[k]) {
        if t in PairedIn(front) {
          var k :| 0 <= k < |front| && front[k].team2.Some? && t in Participants(front[k]);
          assert ps[k] == front[k];
        }
        if exists k :: 0 <= k < |ps| && ps[k].team2.Some? && t in Participants(ps[k]) {
          var k :| 0 <= k < |ps| && ps[k].team2.Some? && t in Participants(ps[k]);
          if k < |front| {
            assert front[k] == ps[k];
          }
        }
      }
    }
  }

  /** The generated round ends with a bye. */
  predicate HasBye(ps: seq<Match>)
  {
    ps != [] && ps[|ps| - 1].team2.None?
  }

  /** The members of a sequence as a set. */
  function Members(s: seq<nat>): (r: set<nat>)
    ensures forall x :: x in r <==> x in s
  {
    if s == [] then {} else {s[0]} + Members(s[1..])
  }

  /** A repeat-free sequence holds as many members as it has positions. */
  lemma {:induction false} DistinctCardinality(s: seq<nat>)
    requires Distinct(s)
    ensures |Members(s)| == |s|
  {
    if s != [] {
      var tail := s[1..];
      assert Distinct(tail) by {
        forall i, j | 0 <= i < j < |tail| ensures tail[i] != tail[j] {
          assert tail[i] == s[i + 1] && tail[j] == s[j + 1];
        }
      }
      DistinctCardinality(tail);
      assert s[0] !in Members(tail);
    }
  }

  /** In a repeat-free sequence every member occurs once. */
  lemma {:induction false} DistinctCountsOnce(s: seq<nat>, x: nat)
    requires Distinct(s)
    ensures multiset(s)[x] <= 1
  {
    if s != [] {
      var tail := s[1..];
      assert s == [s[0]] + tail;
      assert Distinct(tail) by {
        forall i, j | 0 <= i < j < |tail| ensures tail[i] != tail[j] {
          assert tail[i] == s[i + 1] && tail[j] == s[j + 1];
        }
      }
      DistinctCountsOnce(tail, x);
      if x == s[0] {
        assert x !in tail;
        assert multiset(tail)[x] == 0;
      }
    }
  }

  /** A value found at two positions of a list occurs in it at least twice. */
  lemma TwoPositionsCountTwice(r: seq<nat>, i: nat, j: nat)
    requires i < j < |r| && r[i] == r[j]
    ensures multiset(r)[r[i]] >= 2
  {
    assert r == r[..j] + r[j..];
    assert r[i] in r[..j] && r[j] in r[j..];
    assert multiset(r)[r[i]] == multiset(r[..j])[r[i]] + multiset(r[j..])[r[i]];
  }

  /** A list in which no value occurs twice is repeat-free. */
  lemma CountsOnceIsDistinct(r: seq<nat>)
    requires forall x :: multiset(r)[x] <= 1
    ensures Distinct(r)
  {
    forall i, j | 0 <= i < j < |r| ensures r[i] != r[j] {
      if r[i] == r[j] {
        TwoPositionsCountTwice(r, i, j);
        assert false;
      }
    }
  }

  /** Sorting a repeat-free list gives a repeat-free list. */
  lemma SortKeepsDistinct(ts: seq<Team>, ids: seq<nat>, c: Comparator)
    requires InRange(|ts|, ids) && Distinct(ids)
    ensures Distinct(SortTeams(ts, ids, c))
  {
    var r := SortTeams(ts, ids, c);
    forall x ensures multiset(r)[x] <= 1 {
      DistinctCountsOnce(ids, x);
    }
    CountsOnceIsDistinct(r);
  }

  /** Team a stands no lower than team b in the standings order. */
  predicate PlacedAbove(ts: seq<Team>, a: nat, b: nat)
  {
    a < |ts| && b < |ts| && Compare(ByStanding, ts[a], ts[b]) <= 0
  }

  /** The scan of the inner loop (script.js:502-523) as a function: the first
      position from j on whose team is unused and has not met sorted[i]. */
  function FirstNew(ms: seq<Match>, sorted: seq<nat>, used: set<nat>, i: nat, j: nat): (r: Option<nat>)
    requires i < |sorted|
    ensures r.Some? ==> j <= r.value < |sorted| && sorted[r.value] !in used && !HasPlayed(ms, sorted[i], sorted[r.value])
    decreases |sorted| - j
  {
    if j >= |sorted| then None
    else if sorted[j] !in used && !HasPlayed(ms, sorted[i], sorted[j]) then Some(j)
    else FirstNew(ms, sorted, used, i, j + 1)
  }

  /** The greedy pass of script.js:496-526 from position i on, as a
      function: an unused team is paired with its first new opponent further
      down and both become used; a used team, or one with no new opponent,
      is passed over. Ids are handed out from id. */
  function GreedyScan(ms: seq<Match>, sorted: seq<nat>, round: nat, id: nat, i: nat, used: set<nat>): seq<Match>
    decreases |sorted| - i
  {
    if i >= |sorted| then []
    else if sorted[i] in used then GreedyScan(ms, sorted, round, id, i + 1, used)
    else match FirstNew(ms, sorted, used, i, i + 1)
      case Some(j) =>
        [Match(id, round, sorted[i], Some(sorted[j]), None, false)]
          + GreedyScan(ms, sorted, round, id + 1, i + 1, used + {sorted[i], sorted[j]})
      case None => GreedyScan(ms, sorted, round, id, i + 1, used)
  }

  /** The scan makes only new, unresolved best-of-three pairs of this round,
      with consecutive ids from id. */
  lemma {:induction false} GreedyScanMakesNewPairs(ms: seq<Match>, sorted: seq<nat>, round: nat, id: nat, i: nat,
                                                   used: set<nat>)
    ensures var r := GreedyScan(ms, sorted, round, id, i, used);
      forall k :: 0 <= k < |r| ==>
        && r[k] == Match(id + k, round, r[k].team1, r[k].team2, None, false)
        && r[k].team2.Some? && !HasPlayed(ms, r[k].team1, r[k].team2.value)
    decreases |sorted| - i
  {
    if i < |sorted| {
      if sorted[i] in used || FirstNew(ms, sorted, used, i, i + 1).None? {
        GreedyScanSkips(ms, sorted, round, id, i, used);
        GreedyScanMakesNewPairs(ms, sorted, round, id, i + 1, used);
      } else {
        var j := FirstNew(ms, sorted, used, i, i + 1).value;
        GreedyScanPairs(ms, sorted, round, id, i, used, j);
        GreedyScanMakesNewPairs(ms, sorted, round, id + 1, i + 1, used + {sorted[i], sorted[j]});
        var rest := GreedyScan(ms, sorted, round, id + 1, i + 1, used + {sorted[i], sorted[j]});
        var r := GreedyScan(ms, sorted, round, id, i, used);
        forall k | 1 <= k < |r| ensures r[k] == rest[k - 1] { }
      }
    }
  }

  /** One step of the scan when sorted[i] finds its opponent at j. */
  lemma GreedyScanPairs(ms: seq<Match>, sorted: seq<nat>, round: nat, id: nat, i: nat, used: set<nat>, j: nat)
    requires i < |sorted| && sorted[i] !in used && FirstNew(ms, sorted, used, i, i + 1) == Some(j)
    ensures GreedyScan(ms, sorted, round, id, i, used)
         == [Match(id, round, sorted[i], Some(sorted[j]), None, false)]
            + GreedyScan(ms, sorted, round, id + 1, i + 1, used + {sorted[i], sorted[j]})
  {
  }

  lemma AppendAssociates(a: seq<Match>, b: seq<Match>, c: seq<Match>)
    ensures a + b + c == a + (b + c)
  {
  }

  /** One step of the scan when sorted[i] is used or finds no opponent. */
  lemma GreedyScanSkips(ms: seq<Match>, sorted: seq<nat>, round: nat, id: nat, i: nat, used: set<nat>)
    requires i < |sorted| && (sorted[i] in used || FirstNew(ms, sorted, used, i, i + 1).None?)
    ensures GreedyScan(ms, sorted, round, id, i, used) == GreedyScan(ms, sorted, round, id, i + 1, used)
  {
  }

  /** The first n positions of the sorted list are settled: none of their
      teams left unused could still be paired with an unused team below it. */
  ghost predicate SettledBelow(ms: seq<Match>, sorted: seq<nat>, used: set<nat>, n: nat)
  {
    forall p, q :: 0 <= p < n && p < q < |sorted| && sorted[p] !in used && sorted[q] !in used ==>
      HasPlayed(ms, sorted[p], sorted[q])
  }

  /** Settling position i keeps the earlier positions settled, since
      the used set only grows. */
  lemma SettledStep(ms: seq<Match>, sorted: seq<nat>, used: set<nat>, used': set<nat>, i: nat)
    requires used <= used' && SettledBelow(ms, sorted, used, i)
    requires forall q :: i < q < |sorted| && sorted[i] !in used' && sorted[q] !in used' ==>
      HasPlayed(ms, sorted[i], sorted[q])
    ensures SettledBelow(ms, sorted, used', i + 1)
  {
  }

  /** The inner loop of script.js:498-524: the first position after i whose
      team is unused and has not met sorted[i]. */
  method FirstNewOpponent(ms: seq<Match>, sorted: seq<nat>, used: set<nat>, i: nat) returns (found: Option<nat>)
    requires i < |sorted|
    ensures found == FirstNew(ms, sorted, used, i, i + 1)
    ensures found.Some? ==> i < found.value < |sorted|
    ensures found.Some? ==> sorted[found.value] !in used && !HasPlayed(ms, sorted[i], sorted[found.value])
    ensures found.Some? ==> forall q :: i < q < found.value ==> sorted[q] in used || HasPlayed(ms, sorted[i], sorted[q])
    ensures found.None? ==> forall q :: i < q < |sorted| ==> sorted[q] in used || HasPlayed(ms, sorted[i], sorted[q])
  {
    var team1 := sorted[i];
    var j := i + 1;
    while j < |sorted|
      invariant i + 1 <= j <= |sorted|
      invariant forall q :: i < q < j ==> sorted[q] in used || HasPlayed(ms, team1, sorted[q])
      invariant FirstNew(ms, sorted, used, i, i + 1) == FirstNew(ms, sorted, used, i, j)
    {
      var team2 := sorted[j];
      if team2 !in used {
        if !HasPlayed(ms, team1, team2) {
          return Some(j);
        }
      }
      j := j + 1;
    }
    return None;
  }

  /** A generated pair: ids in order, the round, no outcome, best-of-three,
      two different teams that never met, the better-placed one first. */
  ghost predicate SwissPair(ts: seq<Team>, ms: seq<Match>, round: nat, id: nat, m: Match)
  {
    && m == Match(id, round, m.team1, m.team2, None, false)
    && m.team2.Some?
    && m.team1 != m.team2.value
    && !HasPlayed(ms, m.team1, m.team2.value)
    && PlacedAbove(ts, m.team1, m.team2.value)
  }

  /** What the pairing loop keeps true of the pairs made so far: they are
      good pairs with consecutive ids, no team plays twice, and used holds
      exactly their teams, two per pair, all from the sorted list. */
  ghost predicate GreedyState(ts: seq<Team>, ms: seq<Match>, sorted: seq<nat>, round: nat, nextId: nat,
                              ps: seq<Match>, used: set<nat>)
  {
    && used == PairedIn(ps)
    && |used| == 2 * |ps|
    && (forall t :: t in used ==> t in sorted)
    && (forall k :: 0 <= k < |ps| ==> SwissPair(ts, ms, round, nextId + k, ps[k]))
    && (forall k, l :: 0 <= k < l < |ps| ==> Participants(ps[k]) !! Participants(ps[l]))
  }

  /** One pass of the outer loop of script.js:497-525 at position i: if
      sorted[i] is unused and has a new opponent further down, the pair is
      appended and both teams become used; otherwise nothing changes. The
      state afterwards continues the same scan, and sorted[i], if still
      unused, has met every unused team below it. */
  method GreedyStep(ts: seq<Team>, ms: seq<Match>, sorted: seq<nat>, round: nat, nextId: nat, i: nat,
                    pairings: seq<Match>, next: nat, used: set<nat>)
    returns (pairings': seq<Match>, next': nat, used': set<nat>)
    requires Sorted(ts, sorted, ByStanding) && Distinct(sorted)
    requires i < |sorted| && next == nextId + |pairings|
    requires GreedyState(ts, ms, sorted, round, nextId, pairings, used)
    ensures next' == nextId + |pairings'|
    ensures pairings' + GreedyScan(ms, sorted, round, next', i + 1, used')
         == pairings + GreedyScan(ms, sorted, round, next, i, used)
    ensures GreedyState(ts, ms, sorted, round, nextId, pairings', used')
    ensures used <= used'
    ensures forall q :: i < q < |sorted| && sorted[i] !in used' && sorted[q] !in used' ==>
      HasPlayed(ms, sorted[i], sorted[q])
  {
    var team1 := sorted[i];
    var found := None;
    if team1 !in used {
      found := FirstNewOpponent(ms, sorted, used, i);
    }
    if found.Some? {
      var j := found.value;
      var team2 := sorted[j];
      GreedyPairs(ts, ms, sorted, round, nextId, i, pairings, next, used, j);
      GreedyScanPairStep(ms, sorted, round, next, i, used, j, pairings);
      pairings', next', used' := pairings + [Match(next, round, team1, Some(team2), None, false)], next + 1, used + {team1, team2};
    } else {
      GreedyScanSkips(ms, sorted, round, next, i, used);
      pairings', next', used' := pairings, next, used;
    }
  }

  /** The pair case of GreedyStep: appending sorted[i] against its first
      new opponent sorted[j] keeps the loop's state and continues the scan. */
  lemma GreedyPairs(ts: seq<Team>, ms: seq<Match>, sorted: seq<nat>, round: nat, nextId: nat, i: nat,
                    pairings: seq<Match>, id: nat, used: set<nat>, j: nat)
    requires Sorted(ts, sorted, ByStanding) && Distinct(sorted)
    requires i < |sorted| && sorted[i] !in used && id == nextId + |pairings|
    requires FirstNew(ms, sorted, used, i, i + 1) == Some(j)
    requires GreedyState(ts, ms, sorted, round, nextId, pairings, used)
    ensures GreedyState(ts, ms, sorted, round, nextId,
                        pairings + [Match(id, round, sorted[i], Some(sorted[j]), None, false)],
                        used + {sorted[i], sorted[j]})
  {
    var m := Match(id, round, sorted[i], Some(sorted[j]), None, false);
    SortedPairwise(ts, sorted, ByStanding, i, j);
    assert SwissPair(ts, ms, round, id, m);
    PairStep(ts, ms, sorted, round, nextId, pairings, used, m);
  }

  /** The scan equation of the pairing loop survives a step that pairs
      sorted[i] with its first new opponent sorted[j]. */
  lemma GreedyScanPairStep(ms: seq<Match>, sorted: seq<nat>, round: nat, id: nat, i: nat, used: set<nat>, j: nat,
                           done: seq<Match>)
    requires i < |sorted| && sorted[i] !in used && FirstNew(ms, sorted, used, i, i + 1) == Some(j)
    ensures (done + [Match(id, round, sorted[i], Some(sorted[j]), None, false)])
            + GreedyScan(ms, sorted, round, id + 1, i + 1, used + {sorted[i], sorted[j]})
         == done + GreedyScan(ms, sorted, round, id, i, used)
  {
    GreedyScanPairs(ms, sorted, round, id, i, used, j);
    AppendAssociates(done, [Match(id, round, sorted[i], Some(sorted[j]), None, false)],
                     GreedyScan(ms, sorted, round, id + 1, i + 1, used + {sorted[i], sorted[j]}));
  }

  /** The pairing loop of script.js:496-526: each team of the sorted list
      not yet used is paired with its first new opponent further down, if
      it has one; both are then used. The result is the scan GreedyScan
      describes, and no two teams left unused could still have been paired. */
  method PairGreedily(ts: seq<Team>, ms: seq<Match>, sorted: seq<nat>, round: nat, nextId: nat)
    returns (pairings: seq<Match>, next: nat, used: set<nat>)
    requires Sorted(ts, sorted, ByStanding) && Distinct(sorted)
    ensures next == nextId + |pairings|
    ensures pairings == GreedyScan(ms, sorted, round, nextId, 0, {})
    ensures GreedyState(ts, ms, sorted, round, nextId, pairings, used)
    ensures SettledBelow(ms, sorted, used, |sorted|)
  {
    pairings := [];
    next := nextId;
    used := {};
    var i := 0;
    ghost var whole := GreedyScan(ms, sorted, round, nextId, 0, {});
    while i < |sorted|
      invariant 0 <= i <= |sorted|
      invariant next == nextId + |pairings|
      invariant pairings + GreedyScan(ms, sorted, round, next, i, used) == whole
      invariant GreedyState(ts, ms, sorted, round, nextId, pairings, used)
      invariant SettledBelow(ms, sorted, used, i)
    {
      ghost var before := used;
      pairings, next, used := GreedyStep(ts, ms, sorted, round, nextId, i, pairings, next, used);
      SettledStep(ms, sorted, before, used, i);
      i := i + 1;
    }
    assert pairings + [] == pairings;
  }

  /** The two-team matches of a round: all of it but a final bye. */
  function GamesOf(ps: seq<Match>): seq<Match>
  {
    if HasBye(ps) then ps[..|ps| - 1] else ps
  }

  /** Any two different active teams that a round leaves unpaired have
      already met: the greedy pass missed no pair it could have made. */
  ghost predicate NoPairLeft(ts: seq<Team>, ms: seq<Match>, ps: seq<Match>)
  {
    forall a, b ::
      (0 <= a < |ts| && 0 <= b < |ts| && a != b && ts[a].status == Active && ts[b].status == Active &&
       a !in PairedIn(ps) && b !in PairedIn(ps)) ==> HasPlayed(ms, a, b)
  }

  /** A Swiss round as swissPairings (script.js:484-542) generates it for
      the teams ts after the matches ms, with ids from nextId. */
  ghost predicate SwissRound(ts: seq<Team>, ms: seq<Match>, round: nat, nextId: nat, ps: seq<Match>)
  {
    // the pairs are those of the greedy scan over the active teams in standings order
    && GamesOf(ps) == GreedyScan(ms, SortTeams(ts, ActiveTeams(ts), ByStanding), round, nextId, 0, {})
    // ids in order, this round, no outcome yet, best-of-three
    && (forall k :: 0 <= k < |ps| ==>
         && ps[k].id == nextId + k && ps[k].round == round
         && ps[k].outcome.None? && !ps[k].isBo1)
    // only active teams play, and nobody plays twice
    && (forall k :: 0 <= k < |ps| ==> PlayersActive(ts, ps[k]))
    && (forall k, l :: 0 <= k < l < |ps| ==> Participants(ps[k]) !! Participants(ps[l]))
    // a pair is two different teams that never met, the better-placed one first
    && (forall k :: 0 <= k < |ps| && ps[k].team2.Some? ==>
         && ps[k].team1 != ps[k].team2.value
         && !HasPlayed(ms, ps[k].team1, ps[k].team2.value)
         && PlacedAbove(ts, ps[k].team1, ps[k].team2.value))
    // at most one bye, and only at the end
    && (forall k :: 0 <= k < |ps| - 1 ==> ps[k].team2.Some?)
    // a bye exactly when some active team is left unpaired, and it goes to the best-placed of those
    && (HasBye(ps) <==> exists t :: 0 <= t < |ts| && ts[t].status == Active && t !in PairedIn(ps))
    && (HasBye(ps) ==> forall u :: 0 <= u < |ts| && ts[u].status == Active && u !in PairedIn(ps) ==>
         PlacedAbove(ts, ps[|ps| - 1].team1, u))
    // an odd number of active teams always leaves one for the bye
    && (|ActiveTeams(ts)| % 2 == 1 ==> HasBye(ps))
    // no two active teams left unpaired could have been paired
    && NoPairLeft(ts, ms, ps)
  }

  /** swissPairings (script.js:484-542). The active teams are sorted by
      standing; each unused team in turn is paired with the first later
      unused team it has not met; then the first team left unused, if any,
      receives a bye. All generated matches are best-of-three. */
  method SwissPairings(ts: seq<Team>, ms: seq<Match>, round: nat, nextId: nat)
    returns (pairings: seq<Match>, next: nat)
    ensures next == nextId + |pairings|
    ensures SwissRound(ts, ms, round, nextId, pairings)
  {
    var active, sorted := SortedActive(ts);
    var used;
    pairings, next, used := PairGreedily(ts, ms, sorted, round, nextId);
    ghost var pairs := pairings;
    pairings, next := AddBye(sorted, used, pairings, round, next, nextId);
    SwissShape(ts, ms, sorted, round, nextId, pairs, used, pairings);
    SwissActive(ts, ms, sorted, round, nextId, pairs, used, pairings);
    SwissDisjoint(ts, ms, sorted, round, nextId, pairs, used, pairings);
    SwissByeRule(ts, ms, sorted, round, nextId, pairs, used, pairings);
    SwissOddGetsBye(ts, ms, active, sorted, round, nextId, pairs, used, pairings);
    SwissGamesOf(ts, ms, sorted, round, nextId, pairs, used, pairings);
    SwissNoPairLeft(ts, ms, sorted, used, pairings);
  }

  /** The active teams (script.js:485) and their order by standing
      (script.js:488-492). */
  method SortedActive(ts: seq<Team>) returns (active: seq<nat>, sorted: seq<nat>)
    ensures active == ActiveTeams(ts) && forall t :: t in sorted <==> t in active
    ensures Sorted(ts, sorted, ByStanding) && Distinct(sorted) && ListsActive(ts, sorted)
    ensures sorted == SortTeams(ts, ActiveTeams(ts), ByStanding)
  {
    active := ActiveTeams(ts);
    sorted := SortTeams(ts, active, ByStanding);
    SortKeepsMembers(ts, active, ByStanding);
    SortKeepsDistinct(ts, active, ByStanding);
  }

  /** The bye of script.js:527-539: the first team of the sorted list left
      unused, if any, gets a bye match with the next id. */
  method AddBye(sorted: seq<nat>, used: set<nat>, pairs: seq<Match>, round: nat, next: nat, ghost nextId: nat)
    returns (result: seq<Match>, next': nat)
    requires next == nextId + |pairs|
    ensures next' == nextId + |result|
    ensures Finished(sorted, round, nextId, pairs, used, result)
  {
    var remaining := Unused(sorted, used);
    result, next' := pairs, next;
    if |remaining| > 0 {
      var byeTeam := remaining[0];
      result := pairs + [Match(next, round, byeTeam, None, None, false)];
      next' := next + 1;
    }
  }

  /** Both teams of match m (its one team, for a bye) are active. */
  predicate PlayersActive(ts: seq<Team>, m: Match)
  {
    && m.team1 < |ts| && ts[m.team1].status == Active
    && (m.team2.Some? ==> m.team2.value < |ts| && ts[m.team2.value].status == Active)
  }

  /** The sorted list holds exactly the active teams. */
  ghost predicate ListsActive(ts: seq<Team>, sorted: seq<nat>)
  {
    forall t: nat :: t in sorted <==> t < |ts| && ts[t].status == Active
  }

  /** The round as returned: the pairs made, then a bye for the first unused
      team of the sorted list when there is one. */
  ghost predicate Finished(sorted: seq<nat>, round: nat, nextId: nat,
                           pairs: seq<Match>, used: set<nat>, result: seq<Match>)
  {
    var remaining := Unused(sorted, used);
    if remaining != [] then result == pairs + [Match(nextId + |pairs|, round, remaining[0], None, None, false)]
    else result == pairs
  }

  /** Ids, kinds and the pair rules of the finished round; a bye only last. */
  lemma SwissShape(ts: seq<Team>, ms: seq<Match>, sorted: seq<nat>, round: nat, nextId: nat,
                   pairs: seq<Match>, used: set<nat>, result: seq<Match>)
    requires GreedyState(ts, ms, sorted, round, nextId, pairs, used)
    requires Finished(sorted, round, nextId, pairs, used, result)
    ensures forall k :: 0 <= k < |result| ==>
      && result[k].id == nextId + k && result[k].round == round
      && result[k].outcome.None? && !result[k].isBo1
    ensures forall k :: 0 <= k < |result| && result[k].team2.Some? ==>
      && result[k].team1 != result[k].team2.value
      && !HasPlayed(ms, result[k].team1, result[k].team2.value)
      && PlacedAbove(ts, result[k].team1, result[k].team2.value)
    ensures forall k :: 0 <= k < |result| - 1 ==> result[k].team2.Some?
  {
    forall k | 0 <= k < |result|
      ensures result[k].id == nextId + k && result[k].round == round && result[k].outcome.None? && !result[k].isBo1
      ensures result[k].team2.Some? ==> SwissPair(ts, ms, round, nextId + k, result[k])
      ensures k < |result| - 1 ==> result[k].team2.Some?
    {
      if k < |pairs| {
        assert result[k] == pairs[k];
        assert SwissPair(ts, ms, round, nextId + k, pairs[k]);
      }
    }
  }

  /** Only active teams play in the finished round. */
  lemma SwissActive(ts: seq<Team>, ms: seq<Match>, sorted: seq<nat>, round: nat, nextId: nat,
                    pairs: seq<Match>, used: set<nat>, result: seq<Match>)
    requires ListsActive(ts, sorted)
    requires GreedyState(ts, ms, sorted, round, nextId, pairs, used)
    requires Finished(sorted, round, nextId, pairs, used, result)
    ensures forall k :: 0 <= k < |result| ==> PlayersActive(ts, result[k])
  {
    forall k | 0 <= k < |result| ensures PlayersActive(ts, result[k]) {
      forall t | t in Participants(result[k]) ensures t < |ts| && ts[t].status == Active {
        if k < |pairs| {
          assert result[k] == pairs[k];
          assert SwissPair(ts, ms, round, nextId + k, pairs[k]);
          PairedInHolds(pairs, k);
          assert t in used;
        } else {
          var remaining := Unused(sorted, used);
          assert t == remaining[0] && remaining[0] in remaining;
          assert t in sorted;
        }
      }
      assert result[k].team1 in Participants(result[k]);
      assert result[k].team2.Some? ==> result[k].team2.value in Participants(result[k]);
    }
  }

  /** The finished round's two-team matches are the pairs the loop made. */
  lemma SwissGamesOf(ts: seq<Team>, ms: seq<Match>, sorted: seq<nat>, round: nat, nextId: nat,
                     pairs: seq<Match>, used: set<nat>, result: seq<Match>)
    requires GreedyState(ts, ms, sorted, round, nextId, pairs, used)
    requires Finished(sorted, round, nextId, pairs, used, result)
    ensures GamesOf(result) == pairs
  {
    if Unused(sorted, used) != [] {
      assert result[..|result| - 1] == pairs;
    } else if pairs != [] {
      assert SwissPair(ts, ms, round, nextId + |pairs| - 1, pairs[|pairs| - 1]);
    }
  }

  /** Two active teams the finished round leaves unpaired have met: each is
      in the sorted list, and the loop settled the earlier of the two. */
  lemma SwissNoPairLeft(ts: seq<Team>, ms: seq<Match>, sorted: seq<nat>, used: set<nat>, result: seq<Match>)
    requires ListsActive(ts, sorted) && SettledBelow(ms, sorted, used, |sorted|)
    requires PairedIn(result) == used
    ensures NoPairLeft(ts, ms, result)
  {
    forall a, b | 0 <= a < |ts| && 0 <= b < |ts| && a != b && ts[a].status == Active && ts[b].status == Active &&
                  a !in used && b !in used
      ensures HasPlayed(ms, a, b)
    {
      var p :| 0 <= p < |sorted| && sorted[p] == a;
      var q :| 0 <= q < |sorted| && sorted[q] == b;
      if q < p {
        assert HasPlayed(ms, b, a);
      }
    }
  }

  /** No team plays twice in the finished round. */
  lemma SwissDisjoint(ts: seq<Team>, ms: seq<Match>, sorted: seq<nat>, round: nat, nextId: nat,
                      pairs: seq<Match>, used: set<nat>, result: seq<Match>)
    requires GreedyState(ts, ms, sorted, round, nextId, pairs, used)
    requires Finished(sorted, round, nextId, pairs, used, result)
    ensures forall k, l :: 0 <= k < l < |result| ==> Participants(result[k]) !! Participants(result[l])
    ensures PairedIn(result) == used
  {
    assert forall k :: 0 <= k < |pairs| ==> SwissPair(ts, ms, round, nextId + k, pairs[k]);
    var remaining := Unused(sorted, used);
    if remaining != [] {
      ByeStep(pairs, used, Match(nextId + |pairs|, round, remaining[0], None, None, false));
    }
  }

  /** A bye is given exactly when an active team is left unpaired, and it
      goes to the best-placed such team. */
  lemma SwissByeRule(ts: seq<Team>, ms: seq<Match>, sorted: seq<nat>, round: nat, nextId: nat,
                     pairs: seq<Match>, used: set<nat>, result: seq<Match>)
    requires ListsActive(ts, sorted) && Sorted(ts, sorted, ByStanding)
    requires GreedyState(ts, ms, sorted, round, nextId, pairs, used)
    requires Finished(sorted, round, nextId, pairs, used, result)
    ensures HasBye(result) <==> exists t :: 0 <= t < |ts| && ts[t].status == Active && t !in PairedIn(result)
    ensures HasBye(result) ==> forall u :: 0 <= u < |ts| && ts[u].status == Active && u !in PairedIn(result) ==>
      PlacedAbove(ts, result[|result| - 1].team1, u)
  {
    SwissDisjoint(ts, ms, sorted, round, nextId, pairs, used, result);
    var remaining := Unused(sorted, used);
    if remaining != [] {
      var p :| 0 <= p < |sorted| && sorted[p] == remaining[0] && forall q :: 0 <= q < p ==> sorted[q] in used;
      FirstUnusedIsBest(ts, sorted, used, p);
      assert remaining[0] in remaining;
    } else {
      assert !HasBye(result) by {
        if pairs != [] {
          assert SwissPair(ts, ms, round, nextId + |pairs| - 1, pairs[|pairs| - 1]);
        }
      }
      forall t | 0 <= t < |ts| && ts[t].status == Active ensures t in used {
        assert t in sorted;
      }
    }
  }

  /** An odd number of active teams always produces a bye. */
  lemma SwissOddGetsBye(ts: seq<Team>, ms: seq<Match>, active: seq<nat>, sorted: seq<nat>, round: nat, nextId: nat,
                        pairs: seq<Match>, used: set<nat>, result: seq<Match>)
    requires Distinct(active) && forall t :: t in sorted <==> t in active
    requires GreedyState(ts, ms, sorted, round, nextId, pairs, used)
    requires Finished(sorted, round, nextId, pairs, used, result)
    ensures |active| % 2 == 1 ==> HasBye(result)
  {
    var remaining := Unused(sorted, used);
    if remaining == [] {
      assert forall t :: t in used <==> t in active;
      AllUsedMeansEven(active, used);
    }
  }

  /** The first unused team of a list sorted by standing is placed no lower
      than any other unused team of the list. */
  lemma FirstUnusedIsBest(ts: seq<Team>, sorted: seq<nat>, used: set<nat>, p: nat)
    requires Sorted(ts, sorted, ByStanding) && p < |sorted|
    requires forall q :: 0 <= q < p ==> sorted[q] in used
    ensures forall u :: u in sorted && u !in used ==> PlacedAbove(ts, sorted[p], u)
  {
    forall u | u in sorted && u !in used
      ensures PlacedAbove(ts, sorted[p], u)
    {
      var q :| 0 <= q < |sorted| && sorted[q] == u;
      if q != p {
        SortedPairwise(ts, sorted, ByStanding, p, q);
      }
    }
  }

  /** When every active team is used, the used set is as large as the active list. */
  lemma AllUsedMeansEven(active: seq<nat>, used: set<nat>)
    requires Distinct(active)
    requires forall t :: t in used <==> t in active
    ensures |used| == |active|
  {
    assert used == Members(active);
    DistinctCardinality(active);
  }

  /** Adding two new, different members grows a set by two. */
  lemma AddTwo(used: set<nat>, a: nat, b: nat)
    requires a !in used && b !in used && a != b
    ensures |used + {a, b}| == |used| + 2
  {
    assert used + {a, b} == (used + {a}) + {b};
  }

  /** A team of a two-team match of ps is in PairedIn(ps). */
  lemma PairedInHolds(ps: seq<Match>, k: nat)
    requires k < |ps| && ps[k].team2.Some?
    ensures Participants(ps[k]) <= PairedIn(ps)
  {
    PairedInMeans(ps);
  }

  /** A match of unused teams shares no team with the earlier pairs. */
  lemma DisjointStep(ps: seq<Match>, used: set<nat>, m: Match)
    requires used == PairedIn(ps)
    requires forall k :: 0 <= k < |ps| ==> ps[k].team2.Some?
    requires forall k, l :: 0 <= k < l < |ps| ==> Participants(ps[k]) !! Participants(ps[l])
    requires Participants(m) !! used
    ensures forall k, l :: 0 <= k < l < |ps + [m]| ==> Participants((ps + [m])[k]) !! Participants((ps + [m])[l])
  {
    var r := ps + [m];
    forall k, l | 0 <= k < l < |r| ensures Participants(r[k]) !! Participants(r[l]) {
      assert r[k] == ps[k];
      if l == |ps| {
        PairedInHolds(ps, k);
      } else {
        assert r[l] == ps[l];
      }
    }
  }

  /** Appending a good pair of two unused teams of the sorted list keeps the
      loop's facts, with both teams now used. */
  lemma PairStep(ts: seq<Team>, ms: seq<Match>, sorted: seq<nat>, round: nat, nextId: nat,
                 ps: seq<Match>, used: set<nat>, m: Match)
    requires GreedyState(ts, ms, sorted, round, nextId, ps, used)
    requires SwissPair(ts, ms, round, nextId + |ps|, m)
    requires m.team1 in sorted && m.team2.value in sorted
    requires m.team1 !in used && m.team2.value !in used
    ensures GreedyState(ts, ms, sorted, round, nextId, ps + [m], used + {m.team1, m.team2.value})
  {
    var r := ps + [m];
    assert r[..|ps|] == ps;
    AddTwo(used, m.team1, m.team2.value);
    DisjointStep(ps, used, m);
    forall k | 0 <= k < |r| ensures SwissPair(ts, ms, round, nextId + k, r[k]) {
      if k < |ps| {
        assert r[k] == ps[k];
      }
    }
  }

  /** Appending a bye for an unused team leaves the paired set as it is, and
      the bye shares no team with the earlier matches. */
  lemma ByeStep(ps: seq<Match>, used: set<nat>, m: Match)
    requires used == PairedIn(ps) && m.team2.None? && m.team1 !in used
    requires forall k, l :: 0 <= k < l < |ps| ==> Participants(ps[k]) !! Participants(ps[l])
    requires forall k :: 0 <= k < |ps| ==> ps[k].team2.Some?
    ensures PairedIn(ps + [m]) == used
    ensures forall k, l :: 0 <= k < l < |ps + [m]| ==> Participants((ps + [m])[k]) !! Participants((ps + [m])[l])
  {
    assert (ps + [m])[..|ps|] == ps;
    DisjointStep(ps, used, m);
  }

  /* ---------------------------------------------------------------------- */
  /* Choosing the pairing rule                                              */
  /* ---------------------------------------------------------------------- */

  /** A freshly generated round: unresolved matches of the given round
      between existing teams, with ids running on from base. */
  ghost predicate NewRound(ps: seq<Match>, base: nat, round: nat, n: nat)
  {
    forall k :: 0 <= k < |ps| ==>
      && ps[k].id == base + k && ps[k].round == round && ps[k].outcome.None?
      && WellFormedMatch(n, ps[k])
  }

  /** Round 1 as generated for 16 teams: index k against index k + 8 for k
      in 0..7 (seed k + 1 against seed k + 9), single games, ids from base. */
  ghost predicate Round1Games(ps: seq<Match>, base: nat)
  {
    && |ps| == TOTAL_TEAMS / 2
    && forall k :: 0 <= k < TOTAL_TEAMS / 2 ==> ps[k] == Match(base + k, 1, k, Some(k + TOTAL_TEAMS / 2), None, true)
  }

  /** The Round-2 reseed: the first sorted list receives current seeds
      1, 2, ..., then the second 9, 10, ...; nothing else changes. */
  ghost predicate SeedsReassigned(ts: seq<Team>, ms: seq<Match>, teams: seq<Team>)
    requires MatchesWellFormed(|ts|, ms)
  {
    && |teams| == |ts|
    && forall t :: 0 <= t < |ts| ==>
         teams[t] == ts[t].(currentSeed := SeedAfter(LowerSeeded(ts, ms), 9, t,
                                          SeedAfter(UpperSeeded(ts, ms), 1, t, ts[t].currentSeed)))
  }

  /** A Round-2 bracket over existing teams is a new round. */
  lemma BracketIsNew(r: seq<nat>, round: nat, base: nat, n: nat)
    requires InRange(n, r)
    ensures NewRound(Bracket(r, round, base), base, round, n)
  {
    var ps := Bracket(r, round, base);
    forall k | 0 <= k < |ps| ensures WellFormedMatch(n, ps[k]) {
      var i :| 0 <= i < |r| && r[i] == ps[k].team1;
      var j :| 0 <= j < |r| && r[j] == ps[k].team2.value;
    }
  }

  /** The records differ at most in their current seeds. */
  ghost predicate SameRecords(ts: seq<Team>, ts': seq<Team>)
  {
    && |ts'| == |ts|
    && forall t :: 0 <= t < |ts| ==> ts'[t] == ts[t].(currentSeed := ts'[t].currentSeed)
  }

  /** The choice made by generatePairings (script.js:80-174): the fixed
      bracket in Round 1, the reseed and bracket in Round 2, nothing for a
      round number 0, Swiss pairing after INITIAL_ROUNDS. Only the reseed
      changes the team records. */
  method RoundPairings(ts: seq<Team>, ms: seq<Match>, round: nat, nextId: nat)
    returns (teams: seq<Team>, pairings: seq<Match>, next: nat)
    requires |ts| == TOTAL_TEAMS && MatchesWellFormed(|ts|, ms)
    ensures next == nextId + |pairings|
    ensures NewRound(pairings, nextId, round, |ts|) && SameRecords(ts, teams)
    ensures round == 1 ==> teams == ts && Round1Games(pairings, nextId) && Round1Shape(pairings)
    ensures round == 2 ==>
      && SeedsReassigned(ts, ms, teams)
      && pairings == Bracket(Reseeded(ts, ms), round, nextId)
    ensures round == 0 ==> teams == ts && pairings == []
    ensures round > INITIAL_ROUNDS ==> teams == ts && SwissRound(ts, ms, round, nextId, pairings)
  {
    if round <= INITIAL_ROUNDS {
      if round == 1 {
        teams := ts;
        pairings, next := Round1Pairings(ts, round, nextId);
        assert SlotFilled(|ts|, TOTAL_TEAMS / 2 - 1, TOTAL_TEAMS / 2);
      } else if round == 2 {
        teams, pairings, next := Round2Pairings(ts, ms, round, nextId);
        BracketIsNew(Reseeded(ts, ms), round, nextId, |ts|);
      } else {
        teams, pairings, next := ts, [], nextId;
      }
    } else {
      teams := ts;
      pairings, next := SwissPairings(ts, ms, round, nextId);
    }
  }
}
