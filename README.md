# Swiss ladder engine — a Dafny model

This project models the tournament engine of `script.js`, a browser page
that runs a 16-team ladder. The ladder opens with two seeded bracket rounds
and continues with Swiss pairing. A team stops playing once it is promoted
(3 wins) or eliminated (3 losses). Ties in the standings are broken by a
Buchholz score.

The page keeps its state in globals: the team records, the match list, the
current round and a match-id counter. Here that state is the class
`Controller.Tournament`. The class also holds one extra field,
`nextRoundOffered`, which stands for the visibility of the next-round
button. The page's handlers become methods of the class:

- `Register` is the team form's submit handler.
- `SubmitResult` is `submitMatchResult`.
- `GeneratePairings` is `generatePairings`.
- `AdvanceRound` is the next-round click handler.
- `CalculateBuchholz` and `UpdateTeamStatus` are the functions of the same names.

The pure parts of the source are functions in their own modules:

- `Rules`: the single-game score check, the status rule, the order of the submission checks, and the record update.
- `Standings`: the two sort comparators, a sort with its permutation and order proofs, the ranking, and the Buchholz score.
- `Pairing`: Round 1, the Round-2 reseed and bracket, and the greedy Swiss pairing with its bye.

Teams are kept in a sequence indexed by original seed minus one. Matches
name their teams by that index. JavaScript object identity becomes index
equality.

Every handler keeps a class invariant, `Valid()`, which unfolds to
`Controller.Consistent`. It says:

- every match names existing teams;
- a match's id is its position, and the id counter is the next position;
- every match of an earlier round has a result;
- once matches exist, the first eight are the Round-1 bracket;
- every team's wins, losses and status are the tallies of the results entered;
- every Buchholz score is up to date with the current records.

Points where the code is modelled as written:

- **Round-2 reseed.** The second list is named `losers` (script.js:106),
  is logged as the Round-1 losers (script.js:110), and its teams receive
  seeds 9 to 16 (the comment at script.js:121). But it collects `team2` of
  the `Team2Win` matches, and that team is the match's winner. The model
  follows the code. `Pairing.FullRound1Reseed`
  proves the consequence: after a complete Round 1 the reseeded list holds
  exactly the eight Round-1 winners. Round 2 therefore has the four
  upper-bracket games only, because the lower-bracket loop always finds its
  slots empty (`Controller.Round2Bracket`).
- **No extra score checks.** `validateBo1Scores(7, 7)` is true. That
  submission is refused later, as a tie. Negative scores are never refused.
- **Round numbers.** `generatePairings` reseeds only when the round is
  exactly 2. A round number 0, which the page never reaches, gets no
  pairings.
- **Bye results.** A bye is resolved by submitting it like any other match.
  It is recorded as a win for `team1` with no loss.
- **Swiss byes.** After the greedy pass the first unpaired team gets a
  bye. Any further unpaired team gets no match that round. Every two such
  teams have already met: the pass misses no pair it could have made. The
  pass is also written as a function, `Pairing.GreedyScan`, and the loop
  is proved to compute it.

## Model

| member | source | states |
|---|---|---|
| Rules.ValidBo1Scores | script.js:363-370 | the single-game check passes exactly when one score is at least 7 and the other at most 7; both below 7 or both above 7 fails |
| Rules.ValidBo1ScoresSymmetric | script.js:363-370 | the check gives the same answer with the two scores swapped |
| Rules.ValidBo1ScoresSamples | script.js:363-370 | 7-5, 8-6, 6-7 and 7-7 pass; 5-5 and 9-8 fail |
| Rules.StatusFor | script.js:373-381 | Promoted iff wins >= 3; Eliminated iff wins < 3 and losses >= 3; Active iff both are below 3 |
| Rules.FindMatch | script.js:288-292 | the position of the first match carrying the id, or None exactly when no match carries it |
| Rules.Decide | script.js:294-337 | a resolved match is refused as already resolved; NaN is refused exactly on an unresolved two-team match; a single game failing the score check is refused; equal scores are refused; a bye is accepted exactly on an unresolved match without team2; an accepted game names the higher scorer, and every unresolved game with two different valid numbers is accepted |
| Rules.RecordResult | script.js:319-341 | the winner gains one win and the loser one loss; both participants' statuses are recomputed from their new counts; no other team and no other field changes |
| Rules.Credited | script.js:320-336 | the tally step alone: the winner's win count and the loser's loss count go up by one, nothing else changes |
| Rules.Restatus | script.js:340-341 | updateTeamStatus for one team: its status becomes StatusFor of its counts and every other record stays as it was |
| Rules.RoundComplete | script.js:350 | the round is complete when every match of that round has an outcome (RoundCompleteIsEvery ties it to the source's filter-then-every form) |
| Rules.RoundMatches | script.js:350 | the filter by round keeps exactly the matches of that round |
| Rules.RoundCompleteIsEvery | script.js:350 | RoundComplete holds exactly when every match of the filtered list has an outcome |
| Standings.RanksAbove | script.js:392-396 | the standings comparator puts a first exactly when a has more wins, or equal wins and more Buchholz, or both equal and a lower original seed |
| Standings.Compare | script.js:488-492 | the two comparators as written, returning a signed number; CompareSign states what its sign means |
| Standings.CompareSign | script.js:488-492 | a negative comparison by seed means a lower original seed; by standing it means more wins, or equal wins and more Buchholz, or both equal and a lower original seed |
| Standings.CompareAntisymmetric | script.js:392-396 | compare(a, b) is minus compare(b, a) for both comparators |
| Standings.CompareZeroMeansSameSeed | script.js:392-396 | a comparator returns 0 only for two teams with the same original seed (and, by standing, the same wins and Buchholz) |
| Standings.CompareTransitive | script.js:392-396 | "a not after b" and "b not after d" give "a not after d" |
| Standings.StandingOrderIsStrictTotal | script.js:392-396 | the standings order is irreflexive and transitive, and total on teams with different seeds |
| Standings.SortTeams | script.js:392-396 | the sorted list is a permutation of the input, sorted by the comparator, and strictly sorted when the seeds and the input are distinct |
| Standings.StrictlySortedPermutationIsUnique | script.js:392-396 | two strictly sorted permutations of the same list are equal, so every sort algorithm yields the same order |
| Standings.Ranking | script.js:392-396 | the standings list every team once, sorted, and with distinct seeds each team ranks above every team after it |
| Standings.BuchholzWithoutDecisiveMatchIsZero | script.js:447-469 | a team with no decided match has Buchholz 0 |
| Standings.Buchholz | script.js:447-469 | a team's score is the sum over the match list of its opponents' net records in decided matches; the Buchholz lemmas state its properties |
| Standings.Rescored | script.js:447-469 | every team's Buchholz score is recomputed from the match list and no other field changes |
| Standings.BuchholzReadsOnlyRecords | script.js:455-464 | Buchholz depends on the teams only through their wins and losses |
| Standings.BuchholzIgnoresUnresolved | script.js:452-458 | appending unresolved matches changes no Buchholz score |
| Standings.BuchholzRecomputeIsStable | script.js:447-469 | recomputing right after a recomputation gives the same scores |
| Pairing.Round1Pairings | script.js:84-101 | slot i makes a match exactly when teams i and i + 8 exist; match k is index k against k + 8, a single game of the round, unresolved, with id nextId + k; the counter moves past them |
| Pairing.Round1PairsEveryTeamOnce | script.js:84-101 | in the Round-1 bracket each of the 16 teams plays, and only in its own slot |
| Pairing.Slot1Winners | script.js:104-105 | a team is in the first list exactly when it is team1 of a Round-1 match won by Team1Win or Bye |
| Pairing.Slot2Winners | script.js:104-106 | a team is in the second list exactly when it is team2 of a Round-1 match won by Team2Win |
| Pairing.UpperSeeded | script.js:113 | the first list sorted by original seed refers only to existing teams |
| Pairing.LowerSeeded | script.js:120 | the second list sorted by original seed refers only to existing teams |
| Pairing.SeededListsSorted | script.js:113-120 | each sorted list is a permutation of its slot's winners and is in original-seed order |
| Pairing.Reseeded | script.js:127 | the concatenation refers only to existing teams and is as long as the two winner lists together |
| Pairing.ReseededAreRound1Winners | script.js:104-126 | a team is in the reseeded list exactly when it won a Round-1 match |
| Pairing.AssignSeeds | script.js:115-117 | each listed team receives base plus its position in the list; every other team and field is unchanged |
| Pairing.Bracket | script.js:131-168 | the Round-2 bracket has one match per filled slot of 0..3 and 8..11; each is an unresolved single game between two teams of the list, ids consecutive |
| Pairing.BracketSlotsAreFilledSlots | script.js:133-137 | slot i of a range makes a match exactly when positions i and i + 4 of the list exist |
| Pairing.BracketTeamsFromList | script.js:131-168 | every team in the bracket comes from the reseeded list |
| Pairing.BracketPairings | script.js:131-168 | the two loops build exactly the bracket, and the counter moves past it |
| Pairing.Round2Pairings | script.js:102-168 | the first sorted list receives seeds from 1, then the second from 9; the pairings are the bracket of their concatenation |
| Pairing.FullRound1ReseedSize | script.js:104-126 | after a complete Round 1 the reseeded list has eight entries |
| Pairing.FullRound1ReseedDistinct | script.js:104-126 | with distinct seeds the reseeded list has no duplicate |
| Pairing.FullRound1ReseedMembers | script.js:104-126 | a team is reseeded exactly when it won its own Round-1 match |
| Pairing.FullRound1Reseed | script.js:104-168 | after a complete Round 1 the reseeded list is the eight winners, each once, and the Round-2 bracket has exactly four matches |
| Pairing.ActiveTeams | script.js:485 | the filtered list holds exactly the Active teams, each once |
| Pairing.SortKeepsDistinct | script.js:488-492 | sorting a list without duplicates leaves it without duplicates |
| Pairing.SortedActive | script.js:485-492 | the sorted list has the members of the Active list, is in standings order and has no duplicate; it is the standings sort of the Active list |
| Pairing.FirstNew | script.js:501-524 | the scan of the inner loop as a function: a position it finds lies at or after its start, and its team is unused and never met sorted[i] |
| Pairing.HasPlayed | script.js:506-509 | some match of the list put the two teams against each other, in either slot order |
| Pairing.HasPlayedSymmetric | script.js:506-509 | the test gives the same answer whichever team is named first |
| Pairing.GreedyScan | script.js:497-525 | the outer pass as a function: an unused team is paired with its FirstNew opponent and both become used; GreedyScanMakesNewPairs states what it yields |
| Pairing.GreedyScanMakesNewPairs | script.js:497-525 | every match the scan yields is a two-team, unresolved, best-of-three match of the round, with consecutive ids, between teams that never met |
| Pairing.FirstNewOpponent | script.js:500-522 | the loop's answer is the scan FirstNew from i + 1: the first later unused team that never met sorted[i], or None exactly when every later team is used or already met |
| Pairing.GreedyStep | script.js:497-524 | one pass of the outer loop continues the scan GreedyScan, keeps the loop state (good pairs, consecutive ids, no team twice, used is exactly the paired teams), only grows the used set, and leaves sorted[i], if still unused, having met every unused team below it |
| Pairing.GreedyPairs | script.js:512-521 | appending sorted[i] against its first new opponent keeps the loop state |
| Pairing.GreedyScanPairStep | script.js:512-523 | a step that pairs sorted[i] with its first new opponent continues the scan |
| Pairing.PairGreedily | script.js:496-526 | the pairs made are exactly the greedy scan GreedyScan of the sorted list; every pair is two different, unused teams that never met, the better placed first; no team is in two pairs; the used set is exactly the teams paired; and no two teams left unused could still be paired, since every such pair has met |
| Pairing.Unused | script.js:529 | the remaining list holds the unused teams of the sorted list, and its head is the first unused one in sorted order |
| Pairing.AddBye | script.js:528-539 | a bye for the first remaining team is appended exactly when some team remains |
| Pairing.SwissPairings | script.js:484-542 | the round satisfies SwissRound: its two-team matches are the greedy scan over the Active teams sorted by standing; ids consecutive, unresolved, best-of-three; only Active teams play and nobody plays twice; no pair has met before, in either order, and the better placed team is team1; a bye comes only last, exactly when an Active team is left unpaired, and goes to the best placed of those; an odd number of Active teams always leaves a bye; any two Active teams left unpaired have met |
| Pairing.SwissShape | script.js:510-536 | the finished round's ids, kinds and pair rules, with a bye only in last place |
| Pairing.SwissActive | script.js:485-539 | every team in the finished round is Active |
| Pairing.SwissDisjoint | script.js:496-539 | no team is in two matches of the round; the teams in pairs are exactly the used set |
| Pairing.SwissByeRule | script.js:528-539 | a bye exists exactly when an Active team is left unpaired, and its team is placed above every other unpaired Active team |
| Pairing.SwissOddGetsBye | script.js:528-539 | an odd number of Active teams always leaves one for the bye |
| Pairing.SwissGamesOf | script.js:496-539 | the finished round without its bye is the list of pairs the loop made |
| Pairing.SwissNoPairLeft | script.js:497-525 | any two different Active teams the finished round leaves unpaired have met before |
| Pairing.FirstUnusedIsBest | script.js:529-530 | the first unused team of the sorted list is placed above every other unused team |
| Pairing.RoundPairings | script.js:80-174 | Round 1 is the fixed bracket; Round 2 reseeds and pairs the bracket of the reseeded list; round 0 pairs nobody; later rounds are Swiss rounds (SwissRound, as for SwissPairings) with the records untouched; ids are consecutive and only the reseed changes a record |
| Controller.RecordResultKeepsTallies | script.js:319-341 | records that agree with the match list still agree after the result is recorded and the match resolved |
| Controller.FindMatchByPosition | script.js:288 | with ids equal to positions, the lookup finds the match at the id's position, or nothing when the id is out of range |
| Controller.StatusReflectsResults | script.js:373-381 | in a consistent state a team is Promoted exactly when it won at least 3 recorded matches, Eliminated exactly when it won fewer and lost at least 3, and Active otherwise |
| Controller.SubmitKeepsConsistent | script.js:319-359 | an accepted result, the record update, the Buchholz update and the button rule keep the state consistent |
| Controller.AdvanceKeepsConsistent | script.js:472-478 | moving from a completed round to the next keeps the state consistent, with no match yet in the new round |
| Controller.AppendKeepsConsistent | script.js:174-176 | appending a new unresolved round keeps the state consistent |
| Controller.AppendKeepsMatchList | script.js:174-176 | appending a new round keeps ids equal to positions, rounds in range, earlier rounds resolved and the Round-1 bracket first |
| Controller.AppendKeepsRecords | script.js:174-176 | appending unresolved matches keeps the tallies and the Buchholz scores up to date |
| Controller.SeedSortKeepsOrder | script.js:63 | sorting teams whose seeds are their positions leaves them in place |
| Controller.EnterTeams | script.js:48-60 | row i gives seed i + 1 for both seeds, the row's name, no results, Buchholz 0, status Active |
| Controller.SortBySeed | script.js:63 | the seed sort of freshly entered teams returns them unchanged |
| Controller.RegisteredIsConsistent | script.js:46-63 | sixteen fresh records and no matches are a consistent state in Round 1 |
| Controller.Round2FollowsRound1 | script.js:350-354 | a consistent state in Round 2 has the Round-1 bracket in place with every match resolved |
| Controller.Round2Reseed | script.js:104-126 | after Round 1 the reseeded list has eight teams, each the winner of its own Round-1 match |
| Controller.Round2Bracket | script.js:131-168 | Round 2 after Round 1 is four games, every team in them a Round-1 winner |
| Controller.Tournament.Register | script.js:45-77 | sixteen records with seeds 1 to 16 and the given names, Round 1 current, the fixed Round-1 bracket paired, invariant established |
| Controller.Tournament.RecordOutcome | script.js:319-341 | the match gets its outcome and the records become RecordResult of the old ones; nothing else changes |
| Controller.Tournament.UpdateTeamStatus | script.js:373-381 | only team t's status changes, to the status rule of its counts |
| Controller.Tournament.CalculateBuchholz | script.js:447-469 | every Buchholz score becomes the sum over the decided matches of the opponent's net record; nothing else changes |
| Controller.Tournament.GeneratePairings | script.js:80-180 | the new round is appended as a fresh unresolved round and the invariant is kept; Round 1 is the fixed bracket, Round 2 reseeds and gives the four upper games between Round-1 winners, later rounds are Swiss rounds (SwissRound, as for SwissPairings) with the records untouched |
| Controller.Tournament.AppendRound | script.js:175-176 | the reseeded records and the new matches are stored and the counter moves on, invariant kept |
| Controller.Tournament.SubmitResult | script.js:287-360 | an unknown id or a refused submission changes nothing and reports its reason; an accepted one resolves the match, updates records and Buchholz, reports whether the round or the tournament is over, and shows the button only when a round below the last is complete |
| Controller.Tournament.Accept | script.js:319-359 | the outcome is stored, the records updated and rescored, the report and the button follow the round-completion rule, invariant kept |
| Controller.Tournament.AdvanceRound | script.js:472-481 | only when offered: the round goes up by one, the button hides and the new round is appended; after Round 1 the seeds are reassigned and the round is the bracket of the reseeded list, the four upper games between winners; later it is a Swiss round (SwissRound, as for SwissPairings) with the records untouched |

## Left out

- Page rendering is not modelled: the team form, the match cards and the standings table (script.js:22-42, 183-284, 398-443). `Standings.Ranking` gives the order the table shows.
- Event wiring, `window.onload` and the hidden/shown CSS classes are not modelled. The handlers are methods, and the next-round button's visibility is the field `nextRoundOffered`.
- `alert` and `console.log`/`console.error` are not modelled. Each alert-and-return is an `Err` result. Each console error that continues is a skipped slot.
- Reading the score fields and `parseInt` are not modelled. Scores arrive as `Parsed` values, either `NaN` or a number.
- Name trimming at script.js:53 is not modelled: names are taken as given to `Register`.
- Controller.Tournament.Register: requires exactly sixteen names, because the form always has sixteen rows (script.js:22-42).
- Controller.Tournament.AdvanceRound: requires the button to be showing; the page cannot call the handler otherwise.
- Controller.Tournament.SubmitResult: requires the invariant; results can only be submitted for matches the page created.
- Teams are identified by index instead of object reference, and sort stability is not modelled. The standings comparator never ties distinct teams, and `Standings.StrictlySortedPermutationIsUnique` shows the order is then unique.
