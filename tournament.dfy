/** The tournament controller: the global state of the page (teams,
    matches, current round, match-id counter) as one object, with the
    handlers that change it — registration, result submission, the
    standings update and the next-round button (script.js, the form
    submit handler, generatePairings, submitMatchResult, updateTeamStatus,
    calculateBuchholz and the next-round click handler). */
module Controller {
  import opened Types
  import opened Rules
  import opened Standings
  import opened Pairing

  /** What an accepted submission leads to (script.js:349-359): the round
      goes on, the next-round button appears, or the last round is over. */
  datatype Report = InProgress | RoundFinished | TournamentCompleted

  /* ---------------------------------------------------------------------- */
  /* Win and loss tallies                                                   */
  /* ---------------------------------------------------------------------- */

  /** The two counters a result moves. */
  datatype Column = WinsColumn | LossesColumn

  predicate Counts(c: Column, m: Match, x: nat)
  {
    match c
    case WinsColumn => Won(m, x)
    case LossesColumn => Lost(m, x)
  }

  /** How many matches of ms team t has won (or lost). */
  function Tally(ms: seq<Match>, c: Column, t: nat): (n: nat)
    ensures n <= |ms|
    decreases |ms|
  {
    if ms == [] then 0
    else Tally(ms[..|ms| - 1], c, t) + (if Counts(c, ms[|ms| - 1], t) then 1 else 0)
  }

  /** Replacing one match changes a tally by what the old match counted and
      what the new one counts. */
  lemma {:induction false} TallyUpdate(ms: seq<Match>, c: Column, t: nat, k: nat, m: Match)
    requires k < |ms|
    ensures Tally(ms[k := m], c, t) + (if Counts(c, ms[k], t) then 1 else 0)
         == Tally(ms, c, t) + (if Counts(c, m, t) then 1 else 0)
    decreases |ms|
  {
    var n := |ms|;
    var ms' := ms[k := m];
    if k == n - 1 {
      assert ms'[..n - 1] == ms[..n - 1];
    } else {
      assert ms'[..n - 1] == ms[..n - 1][k := m];
      TallyUpdate(ms[..n - 1], c, t, k, m);
    }
  }

  /** Appending unresolved matches changes no tally. */
  lemma {:induction false} TallyIgnoresUnresolved(ms: seq<Match>, extra: seq<Match>, c: Column, t: nat)
    requires forall k :: 0 <= k < |extra| ==> extra[k].outcome.None?
    ensures Tally(ms + extra, c, t) == Tally(ms, c, t)
    decreases |extra|
  {
    if extra == [] {
      assert ms + extra == ms;
    } else {
      var all := ms + extra;
      var front := extra[..|extra| - 1];
      assert all[..|all| - 1] == ms + front;
      assert all[|all| - 1] == extra[|extra| - 1];
      TallyIgnoresUnresolved(ms, front, c, t);
    }
  }

  /** Every record agrees with the match list: wins and losses are the
      tallies of the results entered, and the status is the one the status
      rule gives for them. */
  ghost predicate Tallied(ts: seq<Team>, ms: seq<Match>)
  {
    forall t :: 0 <= t < |ts| ==>
      && ts[t].wins == Tally(ms, WinsColumn, t)
      && ts[t].losses == Tally(ms, LossesColumn, t)
      && ts[t].status == StatusFor(ts[t].wins, ts[t].losses)
  }

  /** Entering a result for an unresolved match with the record update of
      script.js:319-341 keeps every record in agreement with the match list. */
  lemma RecordResultKeepsTallies(ts: seq<Team>, ms: seq<Match>, k: nat, o: Outcome)
    requires Tallied(ts, ms) && k < |ms| && ms[k].outcome.None?
    requires ms[k].team1 < |ts| && (ms[k].team2.Some? ==> ms[k].team2.value < |ts|)
    requires Fits(ms[k], o)
    ensures Tallied(RecordResult(ts, ms[k], o), ms[k := ms[k].(outcome := Some(o))])
  {
    var m := ms[k];
    var m' := m.(outcome := Some(o));
    var r := RecordResult(ts, m, o);
    forall t | 0 <= t < |r|
      ensures r[t].wins == Tally(ms[k := m'], WinsColumn, t)
      ensures r[t].losses == Tally(ms[k := m'], LossesColumn, t)
      ensures r[t].status == StatusFor(r[t].wins, r[t].losses)
    {
      TallyUpdate(ms, WinsColumn, t, k, m');
      TallyUpdate(ms, LossesColumn, t, k, m');
      assert Counts(WinsColumn, m', t) <==> t == WinnerOf(m, o);
      assert Counts(LossesColumn, m', t) <==> LoserOf(m, o) == Some(t);
    }
  }

  /* ---------------------------------------------------------------------- */
  /* The controller's invariant                                             */
  /* ---------------------------------------------------------------------- */

  /** No match of the given round exists yet. */
  predicate Unpaired(ms: seq<Match>, round: nat)
  {
    forall k :: 0 <= k < |ms| ==> ms[k].round < round
  }

  /** A consistent tournament state:
      - 16 teams, team t holding original seed t + 1;
      - every match names existing teams, its id is its position and the
        id counter is the next position; its round is at most the current
        one, and every match of an earlier round has a result;
      - once there are matches the first eight are the Round-1 bracket;
      - the next-round button shows only when the current round is complete
        and is not the last;
      - wins, losses and statuses agree with the results entered, and every
        Buchholz score is up to date. */
  ghost predicate Consistent(ts: seq<Team>, ms: seq<Match>, round: nat, counter: nat, offered: bool)
  {
    && |ts| == TOTAL_TEAMS
    && (forall t :: 0 <= t < |ts| ==> ts[t].originalSeed == t + 1)
    && MatchesWellFormed(|ts|, ms)
    && counter == |ms|
    && (forall k :: 0 <= k < |ms| ==> ms[k].id == k && 1 <= ms[k].round <= round)
    && (forall k :: 0 <= k < |ms| && ms[k].round < round ==> ms[k].outcome.Some?)
    && 1 <= round <= TOTAL_ROUNDS
    && (ms == [] ==> round == 1 && !offered)
    && (ms != [] ==> Round1Shape(ms))
    && (offered ==> RoundComplete(ms, round) && round < TOTAL_ROUNDS)
    && Tallied(ts, ms)
    && (forall t :: 0 <= t < |ts| ==> ts[t].buchholz == Buchholz(ts, ms, t))
  }

  /** Since ids are positions, matches.find by id finds the match at that
      position, and nothing for an id outside the list. */
  lemma FindMatchByPosition(ms: seq<Match>, id: int)
    requires forall k :: 0 <= k < |ms| ==> ms[k].id == k
    ensures FindMatch(ms, id) == (if 0 <= id < |ms| then Some(id) else None)
  {
    if 0 <= id < |ms| {
      assert ms[id].id == id;
    }
  }

  /** In a consistent state a team's status says how its results stand:
      promoted exactly at three wins, eliminated exactly at three losses
      without three wins, active otherwise. */
  lemma StatusReflectsResults(ts: seq<Team>, ms: seq<Match>, round: nat, counter: nat, offered: bool, t: nat)
    requires Consistent(ts, ms, round, counter, offered) && t < |ts|
    ensures ts[t].status == Promoted <==> Tally(ms, WinsColumn, t) >= MAX_WINS
    ensures ts[t].status == Eliminated <==>
      Tally(ms, WinsColumn, t) < MAX_WINS && Tally(ms, LossesColumn, t) >= MAX_LOSSES
    ensures ts[t].status == Active <==>
      Tally(ms, WinsColumn, t) < MAX_WINS && Tally(ms, LossesColumn, t) < MAX_LOSSES
  {
    assert ts[t].wins == Tally(ms, WinsColumn, t) && ts[t].losses == Tally(ms, LossesColumn, t);
  }

  /** Giving an unresolved match a fitting outcome changes nothing else
      about the match list: teams, ids, rounds and the Round-1 bracket stay,
      and a round that was complete stays complete. */
  lemma ResolveKeepsMatchList(n: nat, ms: seq<Match>, round: nat, k: nat, o: Outcome)
    requires MatchesWellFormed(n, ms) && k < |ms| && ms[k].outcome.None? && Fits(ms[k], o)
    ensures var ms' := ms[k := ms[k].(outcome := Some(o))];
      && MatchesWellFormed(n, ms')
      && (forall j :: 0 <= j < |ms| ==> ms'[j].id == ms[j].id && ms'[j].round == ms[j].round)
      && (forall j :: 0 <= j < |ms| && ms[j].outcome.Some? ==> ms'[j].outcome.Some?)
      && (Round1Shape(ms) ==> Round1Shape(ms'))
      && (RoundComplete(ms, round) ==> RoundComplete(ms', round))
  {
    var ms' := ms[k := ms[k].(outcome := Some(o))];
    assert WellFormedMatch(n, ms[k]);
    assert forall j :: 0 <= j < |ms| && j != k ==> ms'[j] == ms[j];
    assert forall j :: 0 <= j < |ms| ==> ms'[j].team1 == ms[j].team1 && ms'[j].team2 == ms[j].team2;
    assert forall j :: 0 <= j < |ms| ==> ms'[j].round == ms[j].round && ms'[j].isBo1 == ms[j].isBo1;
  }

  /** Entering an accepted result, then recomputing every Buchholz score
      and offering the next round when the round is complete and not the
      last, keeps the state consistent. */
  lemma SubmitKeepsConsistent(ts: seq<Team>, ms: seq<Match>, round: nat, counter: nat, offered: bool, k: nat, o: Outcome,
                              ts': seq<Team>, ms': seq<Match>, offered': bool)
    requires Consistent(ts, ms, round, counter, offered)
    requires k < |ms| && ms[k].outcome.None? && Fits(ms[k], o)
    requires ms' == ms[k := ms[k].(outcome := Some(o))]
    requires ts' == Rescored(RecordResult(ts, ms[k], o), ms')
    requires offered' == (offered || (RoundComplete(ms', round) && round < TOTAL_ROUNDS))
    ensures Consistent(ts', ms', round, counter, offered')
  {
    ResolveKeepsMatchList(|ts|, ms, round, k, o);
    var recorded := RecordResult(ts, ms[k], o);
    RecordResultKeepsTallies(ts, ms, k, o);
    BuchholzRecomputeIsStable(recorded, ms', ts');
    assert Tallied(ts', ms');
  }

  /** At the next-round click: every match so far has a result in its round
      or an earlier one, so the state with the round advanced and the button
      hidden is consistent and no match of the new round exists yet. */
  lemma AdvanceKeepsConsistent(ts: seq<Team>, ms: seq<Match>, round: nat, counter: nat)
    requires Consistent(ts, ms, round, counter, true)
    ensures Consistent(ts, ms, round + 1, counter, false)
    ensures Unpaired(ms, round + 1)
  {
  }

  /** Appending a freshly generated round — unresolved matches of the current
      round with the next ids — to a state that has none of that round yet,
      with team records changed in their current seeds at most, keeps the
      state consistent. */
  lemma AppendKeepsConsistent(ts: seq<Team>, ts': seq<Team>, ms: seq<Match>, ps: seq<Match>, round: nat, next: nat)
    requires Consistent(ts, ms, round, |ms|, false) && Unpaired(ms, round)
    requires SameRecords(ts, ts') && NewRound(ps, |ms|, round, |ts|)
    requires ms == [] ==> Round1Shape(ps)
    requires next == |ms| + |ps|
    ensures Consistent(ts', ms + ps, round, next, false)
  {
    AppendKeepsMatchList(|ts|, ms, ps, round);
    AppendKeepsRecords(ts, ts', ms, ps);
  }

  /** The match-list half: the new round's matches continue the ids,
      belong to the current round, name existing teams, and leave the
      Round-1 bracket at the head of the list. */
  lemma AppendKeepsMatchList(n: nat, ms: seq<Match>, ps: seq<Match>, round: nat)
    requires MatchesWellFormed(n, ms) && Unpaired(ms, round) && 1 <= round
    requires forall k :: 0 <= k < |ms| ==> ms[k].id == k && 1 <= ms[k].round
    requires forall k :: 0 <= k < |ms| && ms[k].round < round ==> ms[k].outcome.Some?
    requires ms != [] ==> Round1Shape(ms)
    requires ms == [] ==> Round1Shape(ps)
    requires NewRound(ps, |ms|, round, n)
    ensures var all := ms + ps;
      && MatchesWellFormed(n, all)
      && (forall k :: 0 <= k < |all| ==> all[k].id == k && 1 <= all[k].round <= round)
      && (forall k :: 0 <= k < |all| && all[k].round < round ==> all[k].outcome.Some?)
      && (all != [] ==> Round1Shape(all))
  {
    var all := ms + ps;
    assert forall k :: 0 <= k < |ms| ==> all[k] == ms[k];
    assert forall k :: 0 <= k < |ps| ==> all[|ms| + k] == ps[k];
    forall k | |ms| <= k < |all|
      ensures WellFormedMatch(n, all[k]) && all[k].id == k && all[k].round == round && all[k].outcome.None?
    {
      assert all[k] == ps[k - |ms|];
    }
    if ms == [] {
      assert all == ps;
    } else {
      forall k | TOTAL_TEAMS / 2 <= k < |all| ensures all[k].round != 1 {
        if k >= |ms| {
          assert ms[0].round == 1;
        }
      }
    }
  }

  /** The records half: a round of unresolved matches changes no tally and
      no Buchholz score, and the seed changes touch neither. */
  lemma AppendKeepsRecords(ts: seq<Team>, ts': seq<Team>, ms: seq<Match>, ps: seq<Match>)
    requires MatchesWellFormed(|ts|, ms) && MatchesWellFormed(|ts|, ms + ps)
    requires Tallied(ts, ms) && forall t :: 0 <= t < |ts| ==> ts[t].buchholz == Buchholz(ts, ms, t)
    requires SameRecords(ts, ts')
    requires forall k :: 0 <= k < |ps| ==> ps[k].outcome.None?
    ensures Tallied(ts', ms + ps)
    ensures forall t :: 0 <= t < |ts'| ==> ts'[t].buchholz == Buchholz(ts', ms + ps, t)
  {
    forall t | 0 <= t < |ts'|
      ensures ts'[t].wins == Tally(ms + ps, WinsColumn, t) && ts'[t].losses == Tally(ms + ps, LossesColumn, t)
      ensures ts'[t].buchholz == Buchholz(ts', ms + ps, t)
    {
      TallyIgnoresUnresolved(ms, ps, WinsColumn, t);
      TallyIgnoresUnresolved(ms, ps, LossesColumn, t);
      BuchholzIgnoresUnresolved(ts', ms, ps, t);
      BuchholzReadsOnlyRecords(ts, ts', ms, t);
    }
  }

  /** The records entered on the form hold original seeds 1..16 in order,
      so the sort by original seed at registration (script.js:63) leaves
      them where they are. */
  lemma SeedSortKeepsOrder(ts: seq<Team>)
    requires forall t :: 0 <= t < |ts| ==> ts[t].originalSeed == t + 1
    ensures SortTeams(ts, Indices(|ts|), BySeed) == Indices(|ts|)
  {
    var ids := Indices(|ts|);
    assert SeedsDistinct(ts);
    assert StrictlySorted(ts, ids, BySeed);
    var r := SortTeams(ts, ids, BySeed);
    assert StrictlySorted(ts, r, BySeed);
    assert multiset(r) == multiset(ids);
    StrictlySortedPermutationIsUnique(ts, BySeed, r, ids);
  }

  /** The forEach over the form rows (script.js:50-61): row i gives a
      record with original and current seed i + 1, the row's name, no
      results, Buchholz 0 and status Active. */
  method EnterTeams(names: seq<string>) returns (entered: seq<Team>)
    ensures |entered| == |names|
    ensures forall t :: 0 <= t < |names| ==> entered[t] == Team(t + 1, t + 1, names[t], 0, 0, 0, Active)
  {
    entered := [];
    var i := 0;
    while i < |names|
      invariant 0 <= i <= |names| && |entered| == i
      invariant forall t :: 0 <= t < i ==> entered[t] == Team(t + 1, t + 1, names[t], 0, 0, 0, Active)
    {
      entered := entered + [Team(i + 1, i + 1, names[i], 0, 0, 0, Active)];
      i := i + 1;
    }
  }

  /** The records a sort order lists, in that order. */
  function Arrange(ts: seq<Team>, order: seq<nat>): (r: seq<Team>)
    requires InRange(|ts|, order)
    ensures |r| == |order| && forall i :: 0 <= i < |order| ==> r[i] == ts[order[i]]
  {
    seq(|order|, i requires 0 <= i < |order| => ts[order[i]])
  }

  /** teams.sort by original seed (script.js:63): the records entered on
      the form are already in seed order, so the sorted list is the entered
      one. */
  method SortBySeed(ts: seq<Team>) returns (sorted: seq<Team>)
    requires forall t :: 0 <= t < |ts| ==> ts[t].originalSeed == t + 1
    ensures sorted == ts
  {
    var order := SortTeams(ts, Indices(|ts|), BySeed);
    SeedSortKeepsOrder(ts);
    sorted := Arrange(ts, order);
  }

  /** Sixteen fresh records with seeds 1..16 and no results, and no
      matches: a consistent state in which Round 1 is still to be paired. */
  lemma RegisteredIsConsistent(names: seq<string>, ts: seq<Team>)
    requires |names| == |ts| == TOTAL_TEAMS
    requires forall t :: 0 <= t < |ts| ==> ts[t] == Team(t + 1, t + 1, names[t], 0, 0, 0, Active)
    ensures Consistent(ts, [], 1, 0, false) && Unpaired([], 1)
  {
  }

  /** Round 2 after a complete Round 1: four games, every team in them a
      winner of its Round-1 match. */
  ghost predicate UpperBracketOnly(ms: seq<Match>, ps: seq<Match>)
  {
    && |ms| >= TOTAL_TEAMS / 2
    && |ps| == 4
    && forall k, t :: 0 <= k < |ps| && t in Participants(ps[k]) ==>
         t < TOTAL_TEAMS && Won(ms[Round1Slot(t)], t)
  }

  /* ---------------------------------------------------------------------- */
  /* The tournament object                                                  */
  /* ---------------------------------------------------------------------- */

  /** The page's global state (script.js:9-12) and whether the next-round
      button is showing. */
  class Tournament {
    var teams: seq<Team>
    var matches: seq<Match>
    var currentRound: nat
    var matchIdCounter: nat
    var nextRoundOffered: bool

    ghost predicate Valid()
      reads this
    {
      Consistent(teams, matches, currentRound, matchIdCounter, nextRoundOffered)
    }

    /** The team form's submit handler (script.js:46-72): one record per
        form row, with original and current seed the row number and no
        results yet; the records are sorted by original seed, the standings
        are computed and Round 1 is paired. */
    constructor Register(names: seq<string>)
      requires |names| == TOTAL_TEAMS
      ensures Valid()
      ensures currentRound == 1 && !nextRoundOffered
      ensures |teams| == TOTAL_TEAMS
      ensures forall t :: 0 <= t < TOTAL_TEAMS ==> teams[t] == Team(t + 1, t + 1, names[t], 0, 0, 0, Active)
      ensures Round1Games(matches, 0)
    {
      var entered := EnterTeams(names);
      var sorted := SortBySeed(entered);
      teams := sorted;
      matches := [];
      currentRound := 1;
      matchIdCounter := 0;
      nextRoundOffered := false;
      new;
      CalculateBuchholz();
      assert forall t :: 0 <= t < TOTAL_TEAMS ==> teams[t] == Team(t + 1, t + 1, names[t], 0, 0, 0, Active);
      RegisteredIsConsistent(names, teams);
      var pairings := GeneratePairings();
    }

    /** Entering an accepted result (script.js:319-341): the
        outcome is written into match k, the winner gains a win and the
        loser a loss, and both participants' statuses are recomputed. */
    method RecordOutcome(k: nat, o: Outcome)
      requires k < |matches| && Fits(matches[k], o)
      requires matches[k].team1 < |teams| && (matches[k].team2.Some? ==> matches[k].team2.value < |teams|)
      modifies this
      ensures matches == old(matches)[k := old(matches)[k].(outcome := Some(o))]
      ensures teams == RecordResult(old(teams), old(matches)[k], o)
      ensures currentRound == old(currentRound) && matchIdCounter == old(matchIdCounter)
      ensures nextRoundOffered == old(nextRoundOffered)
    {
      var m := matches[k];
      matches := matches[k := m.(outcome := Some(o))];
      var winner := WinnerOf(m, o);
      teams := teams[winner := teams[winner].(wins := teams[winner].wins + 1)];
      var loser := LoserOf(m, o);
      if loser.Some? {
        teams := teams[loser.value := teams[loser.value].(losses := teams[loser.value].losses + 1)];
      }
      assert teams == Credited(old(teams), m, o);
      UpdateTeamStatus(m.team1);
      if m.team2.Some? {
        UpdateTeamStatus(m.team2.value);
      }
    }

    /** updateTeamStatus (script.js:373-381) for team t. */
    method UpdateTeamStatus(t: nat)
      requires t < |teams|
      modifies this
      ensures teams == old(teams)[t := old(teams)[t].(status := StatusFor(old(teams)[t].wins, old(teams)[t].losses))]
      ensures matches == old(matches) && currentRound == old(currentRound)
      ensures matchIdCounter == old(matchIdCounter) && nextRoundOffered == old(nextRoundOffered)
    {
      var team := teams[t];
      if team.wins >= MAX_WINS {
        teams := teams[t := team.(status := Promoted)];
      } else if team.losses >= MAX_LOSSES {
        teams := teams[t := team.(status := Eliminated)];
      } else {
        teams := teams[t := team.(status := Active)];
      }
    }

    /** calculateBuchholz (script.js:447-469): every score is reset to 0,
        then each decisive match adds the loser's net record to the
        winner's score and the winner's to the loser's. */
    method CalculateBuchholz()
      requires MatchesWellFormed(|teams|, matches)
      modifies this
      ensures matches == old(matches) && currentRound == old(currentRound)
      ensures teams == Rescored(old(teams), matches)
      ensures matchIdCounter == old(matchIdCounter) && nextRoundOffered == old(nextRoundOffered)
    {
      var ts := teams;
      var i := 0;
      while i < |ts|
        invariant 0 <= i <= |ts| == |teams|
        invariant forall t :: 0 <= t < |teams| ==>
          ts[t] == teams[t].(buchholz := if t < i then 0 else teams[t].buchholz)
      {
        ts := ts[i := ts[i].(buchholz := 0)];
        i := i + 1;
      }
      var k := 0;
      while k < |matches|
        invariant 0 <= k <= |matches| && |ts| == |teams|
        invariant MatchesWellFormed(|teams|, matches[..k])
        invariant forall t :: 0 <= t < |teams| ==>
          ts[t] == teams[t].(buchholz := Buchholz(teams, matches[..k], t))
      {
        var m := matches[k];
        assert matches[..k + 1][..k] == matches[..k] && matches[..k + 1][k] == m;
        assert WellFormedMatch(|teams|, m);
        if m.outcome == Some(Team1Win) || m.outcome == Some(Team2Win) {
          var winner := if m.outcome == Some(Team1Win) then m.team1 else m.team2.value;
          var loser := if m.outcome == Some(Team1Win) then m.team2.value else m.team1;
          ts := ts[winner := ts[winner].(buchholz := ts[winner].buchholz + (ts[loser].wins - ts[loser].losses))];
          ts := ts[loser := ts[loser].(buchholz := ts[loser].buchholz + (ts[winner].wins - ts[winner].losses))];
        }
        k := k + 1;
      }
      assert matches[..k] == matches;
      teams := ts;
    }

    /** generatePairings (script.js:75-180): the new round's matches, as
        chosen by RoundPairings, are appended to the match list and the id
        counter moves past them. */
    method GeneratePairings() returns (pairings: seq<Match>)
      requires Valid() && Unpaired(matches, currentRound) && !nextRoundOffered
      modifies this
      ensures Valid()
      ensures matches == old(matches) + pairings
      ensures currentRound == old(currentRound) && !nextRoundOffered
      ensures NewRound(pairings, |old(matches)|, currentRound, TOTAL_TEAMS)
      ensures currentRound == 1 ==> teams == old(teams) && Round1Games(pairings, |old(matches)|)
      ensures currentRound == 2 ==>
        && SeedsReassigned(old(teams), old(matches), teams)
        && pairings == Bracket(Reseeded(old(teams), old(matches)), 2, |old(matches)|)
        && UpperBracketOnly(old(matches), pairings)
      ensures currentRound > 2 ==>
        teams == old(teams) && SwissRound(old(teams), old(matches), currentRound, |old(matches)|, pairings)
    {
      var reseeded, next;
      reseeded, pairings, next := RoundPairings(teams, matches, currentRound, matchIdCounter);
      if currentRound == 2 {
        Round2FollowsRound1(teams, matches, currentRound, matchIdCounter, nextRoundOffered);
        Round2Bracket(teams, matches);
      }
      AppendRound(reseeded, pairings, next);
    }

    /** The end of generatePairings (script.js:175-176): the new round's
        matches join the match list, the id counter stands past the ids they
        took, and the records keep the seeds the pairing gave them. */
    method AppendRound(reseeded: seq<Team>, pairings: seq<Match>, next: nat)
      requires Valid() && Unpaired(matches, currentRound) && !nextRoundOffered
      requires SameRecords(teams, reseeded) && NewRound(pairings, |matches|, currentRound, |teams|)
      requires matches == [] ==> Round1Shape(pairings)
      requires next == matchIdCounter + |pairings|
      modifies this
      ensures Valid()
      ensures teams == reseeded && matches == old(matches) + pairings && matchIdCounter == next
      ensures currentRound == old(currentRound) && nextRoundOffered == old(nextRoundOffered)
    {
      var all := matches + pairings;
      AppendKeepsConsistent(teams, reseeded, matches, pairings, currentRound, next);
      teams := reseeded;
      matches := all;
      matchIdCounter := next;
    }

    /** submitMatchResult (script.js:286-360) for the match with the given id
        and the two score fields as parsed. A refused submission changes
        nothing. An accepted one records the outcome, updates the two teams'
        records and statuses, recomputes the standings and reports whether
        the round, or the tournament, is over. */
    method SubmitResult(matchId: int, score1: Parsed, score2: Parsed) returns (r: Result<Report, SubmitError>)
      requires Valid()
      modifies this
      ensures Valid()
      ensures currentRound == old(currentRound) && matchIdCounter == old(matchIdCounter)
      ensures !(0 <= matchId < |old(matches)|) ==> r == Err(MatchNotFound)
      ensures 0 <= matchId < |old(matches)| && Decide(old(matches)[matchId], score1, score2).Err? ==>
        r == Err(Decide(old(matches)[matchId], score1, score2).error)
      ensures r.Err? ==> teams == old(teams) && matches == old(matches) && nextRoundOffered == old(nextRoundOffered)
      // a submission for an existing match that passes every check is accepted
      ensures r.Ok? <==> 0 <= matchId < |old(matches)| && Decide(old(matches)[matchId], score1, score2).Ok?
      ensures r.Ok? ==>
        && 0 <= matchId < |old(matches)| && Decide(old(matches)[matchId], score1, score2).Ok?
        && var m := old(matches)[matchId];
           var o := Decide(m, score1, score2).value;
           && matches == old(matches)[matchId := m.(outcome := Some(o))]
           && MatchesWellFormed(|teams|, matches)
           && teams == Rescored(RecordResult(old(teams), m, o), matches)
           && r.value == (if !RoundComplete(matches, currentRound) then InProgress
                          else if currentRound < TOTAL_ROUNDS then RoundFinished
                          else TournamentCompleted)
           && nextRoundOffered == (old(nextRoundOffered) || r.value == RoundFinished)
    {
      var found := FindMatch(matches, matchId);
      FindMatchByPosition(matches, matchId);
      if found.None? {
        return Err(MatchNotFound);
      }
      var k := found.value;
      var m := matches[k];
      var decision := Decide(m, score1, score2);
      if decision.Err? {
        return Err(decision.error);
      }
      var report := Accept(k, decision.value);
      r := Ok(report);
    }

    /** The accepting half of submitMatchResult (script.js:319-359): the
        outcome is entered, the standings recomputed, and the report says
        whether the round, or the tournament, is over; the next-round
        button shows when a round other than the last is complete. */
    method Accept(k: nat, o: Outcome) returns (report: Report)
      requires Valid() && k < |matches| && matches[k].outcome.None? && Fits(matches[k], o)
      modifies this
      ensures Valid()
      ensures currentRound == old(currentRound) && matchIdCounter == old(matchIdCounter)
      ensures matches == old(matches)[k := old(matches)[k].(outcome := Some(o))]
      ensures MatchesWellFormed(|teams|, matches)
      ensures teams == Rescored(RecordResult(old(teams), old(matches)[k], o), matches)
      ensures report == (if !RoundComplete(matches, currentRound) then InProgress
                         else if currentRound < TOTAL_ROUNDS then RoundFinished
                         else TournamentCompleted)
      ensures nextRoundOffered == (old(nextRoundOffered) || report == RoundFinished)
    {
      var resolved := matches[k := matches[k].(outcome := Some(o))];
      report := if !RoundComplete(resolved, currentRound) then InProgress
                else if currentRound < TOTAL_ROUNDS then RoundFinished
                else TournamentCompleted;
      var offered := nextRoundOffered || report == RoundFinished;
      assert WellFormedMatch(|teams|, matches[k]);
      RecordOutcome(k, o);
      CalculateBuchholz();
      nextRoundOffered := offered;
      SubmitKeepsConsistent(old(teams), old(matches), currentRound, matchIdCounter, old(nextRoundOffered), k, o,
                            teams, matches, nextRoundOffered);
    }

    /** The next-round button's click handler (script.js:472-481), which can
        only be clicked while the button shows: the button is hidden, the
        round number goes up, and the new round is paired. */
    method AdvanceRound() returns (pairings: seq<Match>)
      requires Valid() && nextRoundOffered
      modifies this
      ensures Valid()
      ensures currentRound == old(currentRound) + 1 && !nextRoundOffered
      ensures matches == old(matches) + pairings
      ensures NewRound(pairings, |old(matches)|, currentRound, TOTAL_TEAMS)
      // after a full Round 1, Round 2 is the four upper-bracket games between Round-1 winners
      ensures old(currentRound) == 1 ==>
        && SeedsReassigned(old(teams), old(matches), teams)
        && pairings == Bracket(Reseeded(old(teams), old(matches)), 2, |old(matches)|)
        && UpperBracketOnly(old(matches), pairings)
      // later, a Swiss round over the unchanged records
      ensures old(currentRound) > 1 ==>
        teams == old(teams) && SwissRound(old(teams), old(matches), currentRound, |old(matches)|, pairings)
    {
      AdvanceKeepsConsistent(teams, matches, currentRound, matchIdCounter);
      nextRoundOffered := false;
      currentRound := currentRound + 1;
      pairings := GeneratePairings();
    }
  }

  /** Round 1 is in the match list and every match of it has a result. */
  ghost predicate Round1Played(ts: seq<Team>, ms: seq<Match>)
  {
    && |ts| == TOTAL_TEAMS && (forall t :: 0 <= t < |ts| ==> ts[t].originalSeed == t + 1)
    && MatchesWellFormed(|ts|, ms) && Round1Shape(ms)
    && (forall k :: 0 <= k < |ms| && ms[k].round < 2 ==> ms[k].outcome.Some?)
  }

  /** In a consistent state in Round 2, Round 1 has been played. */
  lemma Round2FollowsRound1(ts: seq<Team>, ms: seq<Match>, round: nat, counter: nat, offered: bool)
    requires Consistent(ts, ms, round, counter, offered) && round == 2
    ensures Round1Played(ts, ms)
  {
  }

  /** After a complete Round 1 the reseeded list holds eight teams, each of
      which won its Round-1 match. */
  lemma Round2Reseed(ts: seq<Team>, ms: seq<Match>)
    requires Round1Played(ts, ms)
    ensures |Reseeded(ts, ms)| == TOTAL_TEAMS / 2
    ensures forall t :: t in Reseeded(ts, ms) ==> t < TOTAL_TEAMS && Won(ms[Round1Slot(t)], t)
  {
    assert SeedsDistinct(ts);
    assert RoundComplete(ms, 1);
    FullRound1Reseed(ts, ms, 2, |ms|);
    var r := Reseeded(ts, ms);
    forall t | t in r ensures t < TOTAL_TEAMS && Won(ms[Round1Slot(t)], t) {
      var i :| 0 <= i < |r| && r[i] == t;
    }
  }

  /** Round 2 after a complete Round 1: the bracket has exactly the four
      upper games, each between two teams that won their Round-1 match. */
  lemma Round2Bracket(ts: seq<Team>, ms: seq<Match>)
    requires Round1Played(ts, ms)
    ensures UpperBracketOnly(ms, Bracket(Reseeded(ts, ms), 2, |ms|))
  {
    Round2Reseed(ts, ms);
    BracketTeamsFromList(Reseeded(ts, ms), 2, |ms|);
  }
}
