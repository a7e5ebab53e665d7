/** Data model of the 16-team ladder: constants, team records, matches and
    the small wrapper types used for results and errors. */
module Types {

  /** Tournament configuration (script.js, lines 2-6). */
  const MAX_WINS: nat := 3
  const MAX_LOSSES: nat := 3
  const TOTAL_TEAMS: nat := 16
  const INITIAL_ROUNDS: nat := 2
  const TOTAL_ROUNDS: nat := 5

  datatype Option<+T> = None | Some(value: T)

  datatype Result<+T, +E> = Ok(value: T) | Err(error: E)

  /** The three team states (the TeamStatus enum). */
  datatype Status = Active | Promoted | Eliminated

  /** The three values a resolved match's outcome can hold; an unresolved
      match has outcome None (JavaScript null). */
  datatype Outcome = Team1Win | Team2Win | Bye

  /** A team record. Teams are kept in a sequence indexed by original seed
      minus one, and matches refer to teams by that index. */
  datatype Team = Team(
    originalSeed: int,
    currentSeed: int,
    name: string,
    wins: nat,
    losses: nat,
    buchholz: int,
    status: Status)

  /** A match record; team2 == None is a bye. */
  datatype Match = Match(
    id: nat,
    round: nat,
    team1: nat,
    team2: Option<nat>,
    outcome: Option<Outcome>,
    isBo1: bool)

  /** A score as read from a form field: parseInt either yields a number or NaN. */
  datatype Parsed = NaN | Num(value: int)

  /** The ways submitMatchResult refuses a submission (each an alert and return). */
  datatype SubmitError = MatchNotFound | AlreadyResolved | InvalidScore | InvalidBo1Score | TiedScore

  /** The teams taking part in a match. */
  function Participants(m: Match): set<nat>
  {
    if m.team2.Some? then {m.team1, m.team2.value} else {m.team1}
  }

  /** A match's outcome fits its shape: only a bye can be resolved as Bye,
      and a decisive outcome needs team2. */
  ghost predicate OutcomeFits(m: Match)
  {
    && (m.outcome == Some(Bye) ==> m.team2.None?)
    && (m.outcome.Some? && m.outcome.value != Bye ==> m.team2.Some?)
  }

  /** A match refers to existing teams and its outcome fits its shape. */
  ghost predicate WellFormedMatch(n: nat, m: Match)
  {
    && m.team1 < n
    && (m.team2.Some? ==> m.team2.value < n)
    && OutcomeFits(m)
  }

  ghost predicate MatchesWellFormed(n: nat, ms: seq<Match>)
  {
    forall k :: 0 <= k < |ms| ==> WellFormedMatch(n, ms[k])
  }

  /** No two teams share an original seed. */
  ghost predicate SeedsDistinct(ts: seq<Team>)
  {
    forall i, j :: 0 <= i < |ts| && 0 <= j < |ts| && i != j ==> ts[i].originalSeed != ts[j].originalSeed
  }

  /** No element occurs twice. */
  ghost predicate Distinct(s: seq<nat>)
  {
    forall i, j :: 0 <= i < j < |s| ==> s[i] != s[j]
  }

  /** Every element is an index into the team list. */
  ghost predicate InRange(n: nat, s: seq<nat>)
  {
    forall i :: 0 <= i < |s| ==> s[i] < n
  }
}
