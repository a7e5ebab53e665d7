/** Match-result rules: single-game score validation, the status rule, the
    checks a submission goes through, and the record update it makes
    (script.js, submitMatchResult, validateBo1Scores, updateTeamStatus). */
module Rules {
  import opened Types

  /** validateBo1Scores (script.js:363-370). A pair is accepted exactly when
      one side reached 7 and the other stayed at or below 7. There is no
      check against negative scores and no overtime rule: (7, 7) passes here
      and is refused later as a tie. */
  function ValidBo1Scores(score1: int, score2: int): (r: bool)
    ensures r <==> (score1 >= 7 && score2 <= 7) || (score2 >= 7 && score1 <= 7)
    ensures (score1 < 7 && score2 < 7) || (score1 > 7 && score2 > 7) ==> !r
  {
    if score1 < 7 && score2 < 7 then false
    else if score1 >= 7 && score2 <= 7 then true
    else if score2 >= 7 && score1 <= 7 then true
    else false
  }

  /** The single-game check does not care which side is which. */
  lemma ValidBo1ScoresSymmetric(score1: int, score2: int)
    ensures ValidBo1Scores(score1, score2) == ValidBo1Scores(score2, score1)
  {
  }

  /** Sample score pairs: 7-5, 8-6 and 6-7 pass, 5-5 fails, and 7-7 passes
      the single-game check (the tie is caught afterwards). */
  lemma ValidBo1ScoresSamples()
    ensures ValidBo1Scores(7, 5) && ValidBo1Scores(8, 6) && ValidBo1Scores(6, 7)
    ensures !ValidBo1Scores(5, 5) && ValidBo1Scores(7, 7) && !ValidBo1Scores(9, 8)
  {
  }

  /** The status rule of updateTeamStatus (script.js:373-381): wins are
      checked before losses. */
  function StatusFor(wins: nat, losses: nat): (s: Status)
    ensures s == Promoted <==> wins >= MAX_WINS
    ensures s == Eliminated <==> wins < MAX_WINS && losses >= MAX_LOSSES
    ensures s == Active <==> wins < MAX_WINS && losses < MAX_LOSSES
  {
    if wins >= MAX_WINS then Promoted
    else if losses >= MAX_LOSSES then Eliminated
    else Active
  }

  /** matches.find(m => m.id === matchId) (script.js:288): the position of
      the first match carrying the id, if any. */
  function FindMatch(ms: seq<Match>, id: int): (r: Option<nat>)
    ensures r.Some? ==> r.value < |ms| && ms[r.value].id == id
    ensures r.Some? ==> forall j :: 0 <= j < r.value ==> ms[j].id != id
    ensures r.None? ==> forall j :: 0 <= j < |ms| ==> ms[j].id != id
    decreases |ms|
  {
    if ms == [] then None
    else if ms[0].id == id then Some(0)
    else match FindMatch(ms[1..], id)
      case Some(k) => Some(k + 1)
      case None => None
  }

  /** The checks of submitMatchResult once the match is found (script.js:294-337),
      in the source's order: write-once, NaN, single-game rule, tie. A bye
      needs no scores and is won by team1. */
  function Decide(m: Match, score1: Parsed, score2: Parsed): (r: Result<Outcome, SubmitError>)
    // results are write-once
    ensures r == Err(AlreadyResolved) <==> m.outcome.Some?
    ensures r.Ok? ==> m.outcome.None?
    // an accepted outcome fits the match: Bye exactly for a match without team2
    ensures r.Ok? ==> Fits(m, r.value)
    // a bye is won by team1 whatever the form holds
    ensures r == Ok(Bye) <==> m.outcome.None? && m.team2.None?
    // an accepted game names the higher scorer; in a single game the winner reached 7
    // and the loser stayed at or below 7
    ensures r == Ok(Team1Win) ==>
      && m.team2.Some? && score1.Num? && score2.Num? && score1.value > score2.value
      && (m.isBo1 ==> score1.value >= 7 && score2.value <= 7)
    ensures r == Ok(Team2Win) ==>
      && m.team2.Some? && score1.Num? && score2.Num? && score2.value > score1.value
      && (m.isBo1 ==> score2.value >= 7 && score1.value <= 7)
    // the refusals, each for its own reason and in the source's order:
    // NaN before the single-game rule, the single-game rule before the tie
    ensures r == Err(InvalidScore) <==> m.outcome.None? && m.team2.Some? && (score1.NaN? || score2.NaN?)
    ensures r == Err(InvalidBo1Score) <==>
      && m.outcome.None? && m.team2.Some? && score1.Num? && score2.Num?
      && m.isBo1 && !ValidBo1Scores(score1.value, score2.value)
    ensures r == Err(TiedScore) <==>
      && m.outcome.None? && m.team2.Some? && score1.Num? && score2.Num?
      && (m.isBo1 ==> ValidBo1Scores(score1.value, score2.value))
      && score1.value == score2.value
    ensures r != Err(MatchNotFound)
    // a tie is never accepted
    ensures score1.Num? && score2.Num? && score1.value == score2.value && m.team2.Some? ==> r.Err?
    // and every unresolved game with two distinct numbers that passes the single-game rule is accepted
    ensures (&& m.outcome.None? && m.team2.Some? && score1.Num? && score2.Num?
             && score1.value != score2.value
             && (m.isBo1 ==> ValidBo1Scores(score1.value, score2.value))) ==> r.Ok?
  {
    if m.outcome.Some? then Err(AlreadyResolved)
    else if m.team2.Some? then
      if score1.NaN? || score2.NaN? then Err(InvalidScore)
      else if m.isBo1 && !ValidBo1Scores(score1.value, score2.value) then Err(InvalidBo1Score)
      else if score1.value > score2.value then Ok(Team1Win)
      else if score2.value > score1.value then Ok(Team2Win)
      else Err(TiedScore)
    else Ok(Bye)
  }

  /** Whether an outcome fits a match: Bye exactly for a match without team2. */
  predicate Fits(m: Match, o: Outcome)
  {
    (o == Bye) == m.team2.None?
  }

  /** The team credited with the win. */
  function WinnerOf(m: Match, o: Outcome): nat
    requires Fits(m, o)
  {
    if o == Team2Win then m.team2.value else m.team1
  }

  /** The team charged with the loss; a bye has none. */
  function LoserOf(m: Match, o: Outcome): Option<nat>
    requires Fits(m, o)
  {
    match o
    case Team1Win => m.team2
    case Team2Win => Some(m.team1)
    case Bye => None
  }

  /** Team x is credited with the win of the resolved match m. */
  predicate Won(m: Match, x: nat)
  {
    match m.outcome
    case Some(o) => Fits(m, o) && WinnerOf(m, o) == x
    case None => false
  }

  /** Team x is charged with the loss of the resolved match m. */
  predicate Lost(m: Match, x: nat)
  {
    match m.outcome
    case Some(o) => Fits(m, o) && LoserOf(m, o) == Some(x)
    case None => false
  }

  /** The team records after a result is accepted (script.js:319-341): the
      winner gains a win, the loser a loss, then both participants' statuses
      are recomputed. No other team and no other field changes. */
  function RecordResult(ts: seq<Team>, m: Match, o: Outcome): (r: seq<Team>)
    requires m.team1 < |ts| && (m.team2.Some? ==> m.team2.value < |ts|)
    requires Fits(m, o)
    ensures |r| == |ts|
    ensures forall t :: 0 <= t < |ts| ==>
      && r[t].wins == ts[t].wins + (if t == WinnerOf(m, o) then 1 else 0)
      && r[t].losses == ts[t].losses + (if LoserOf(m, o) == Some(t) then 1 else 0)
      && r[t].status == (if t in Participants(m) then StatusFor(r[t].wins, r[t].losses) else ts[t].status)
      && r[t].(wins := ts[t].wins, losses := ts[t].losses, status := ts[t].status) == ts[t]
  {
    var tallied := Credited(ts, m, o);
    var first := Restatus(tallied, m.team1);
    match m.team2
    case Some(t2) => Restatus(first, t2)
    case None => first
  }

  /** The win and loss counters after a result (script.js:320-336). */
  function Credited(ts: seq<Team>, m: Match, o: Outcome): (r: seq<Team>)
    requires m.team1 < |ts| && (m.team2.Some? ==> m.team2.value < |ts|)
    requires Fits(m, o)
    ensures |r| == |ts|
    ensures forall t :: 0 <= t < |ts| ==>
      r[t] == ts[t].(wins := ts[t].wins + (if t == WinnerOf(m, o) then 1 else 0),
                     losses := ts[t].losses + (if LoserOf(m, o) == Some(t) then 1 else 0))
  {
    var w := WinnerOf(m, o);
    var won := ts[w := ts[w].(wins := ts[w].wins + 1)];
    match LoserOf(m, o)
    case Some(l) => won[l := won[l].(losses := won[l].losses + 1)]
    case None => won
  }

  /** Team `t` after updateTeamStatus (script.js:339-340); the others as they were. */
  function Restatus(ts: seq<Team>, t: nat): (r: seq<Team>)
    requires t < |ts|
    ensures |r| == |ts|
    ensures forall i :: 0 <= i < |ts| ==>
      r[i] == if i == t then ts[i].(status := StatusFor(ts[i].wins, ts[i].losses)) else ts[i]
  {
    ts[t := ts[t].(status := StatusFor(ts[t].wins, ts[t].losses))]
  }

  /** Every match of the round has an outcome (script.js:350). */
  predicate RoundComplete(ms: seq<Match>, round: nat)
  {
    forall k :: 0 <= k < |ms| && ms[k].round == round ==> ms[k].outcome.Some?
  }

  /** matches.filter(m => m.round === round) (script.js:350): the round's
      matches in list order. */
  function RoundMatches(ms: seq<Match>, round: nat): (r: seq<Match>)
    ensures forall m :: m in r <==> m in ms && m.round == round
  {
    if ms == [] then []
    else if ms[0].round == round then [ms[0]] + RoundMatches(ms[1..], round)
    else RoundMatches(ms[1..], round)
  }

  /** The completeness test as the source writes it, every match of the
      filtered list has an outcome, is RoundComplete. */
  lemma RoundCompleteIsEvery(ms: seq<Match>, round: nat)
    ensures RoundComplete(ms, round) <==> forall m :: m in RoundMatches(ms, round) ==> m.outcome.Some?
  {
    if !RoundComplete(ms, round) {
      var k :| 0 <= k < |ms| && ms[k].round == round && ms[k].outcome.None?;
      assert ms[k] in RoundMatches(ms, round);
    }
  }
}
