# Bowling tournament manager: brackets, seeding, scores, schedules, registration

A Dafny model of the tournament logic in `2048/tournament.js`, a browser application
that runs single-elimination bowling tournaments. The model covers the following parts.

- **Bracket builder (`generateBracket`).** The roster is padded to the next power of two.
  Round 0 pairs registered bowlers two by two, in roster order, and a missing opponent
  becomes an empty slot (a bye). Every later round is built blank by halving.
- **Seeding (`autoSeedBracket`).** Registrations are ordered by bowling average, highest
  first, and the bracket is rebuilt. A missing average counts as 0, and the sort is stable.
- **Score entry (`submitMatchScore`).** The score is stored. A strictly higher score wins,
  and the winner is copied into slot `player1` (even match index) or `player2` (odd index)
  of match `i/2` in the next round. A tie stores the score in memory and does nothing else. Scores
  can only be entered through the bracket view, which offers the form only when both
  players are participants and the match has no winner yet.
- **Schedule (`generateSchedule`).** There is one entry per bracket match, in round order.
  Entries are spaced `duration` minutes apart, with a 30-minute break after each round.
  The new schedule replaces any earlier schedule of the same tournament.
- **Lanes (`autoAssignLanes`).** The sequential and balanced methods both give entry `g`
  lane `(g % lanes) + 1`.
- **Registration (the second, effective `submitBowlerRegistration`, and
  `isUserRegistered`).** A registration is refused, in this order, when:
  - the tournament is unknown;
  - the deadline has passed;
  - the user is already registered;
  - the tournament is full.

  Otherwise one registration is appended, with a falsy average replaced by 160, and the
  bowler directory is updated by email (insert, or fill in a missing average).
- **Manage-bowlers selection (`addBowlerToSelection`, `removeBowlerFromSelection`).** Adding
  appends the first directory bowler with the id unless it is unknown or already selected.
  Removing filters out every selected bowler with the id and keeps the rest in order.
- **Ordinals (`getPlaceSuffix`).** Produces 1st, 2nd, 3rd, 4th, 11th, 21st, and so on.

JavaScript semantics are written out. `parseInt` yields `JsInt = Option<int>`, where
`None` stands for `NaN`. "Truthy" means present and non-zero. `%` is JavaScript's
truncated remainder (`JsNum.JsRem`), not Dafny's Euclidean one. The clock (`Date.now()`),
the current user and every form field are parameters.

The main results are these:

- Entering scores keeps a bracket *consistent*: round-0 pairings never change, a winner
  is always one of the match's players, and every filled later slot holds the winner of
  the match that feeds it.
- A bye blocks every match downstream of it. So a bracket built for a roster that is not
  a power of two of at least two bowlers can never be completed, whatever scores are
  entered (`Progression.ByeBracketNeverCompletes`).
- Conversely, a power-of-two roster can always be played to a champion
  (`Completion.FullBracketCompletes`). Together: a built bracket can be completed exactly
  when the roster size is 2^k with k >= 1 (`Completion.CanCompleteIff`).
- Seeding is the unique stable descending order.
- Lane loads differ by at most one.
- A registered user cannot register twice.
- The ordinal table agrees with the English rule for every non-negative place.

Modules:

- `Wrappers`: Option and Result.
- `JsNum`: JavaScript numbers, powers of two, decimal strings.
- `JsArray`: `Array.prototype.filter` and `findIndex`.
- `Roster`: registrations, participants and directory bowlers.
- `Seeding`, `Brackets`, `Progression`, `Completion`.
- `Tournaments`: tournament list, bracket generation, seeding, registration.
- `Scheduling`, `Selection`, `Ordinal`.

## Model

| member | source | states |
|---|---|---|
| JsNum.JsRem | 2048/tournament.js:1571-1572 | JavaScript's `%`: the remainder takes the dividend's sign, is smaller in magnitude than the divisor, and differs from the dividend by a multiple of the divisor, which together fix it uniquely |
| JsNum.CeilLog2 | 2048/tournament.js:964 | `Math.ceil(Math.log2(n))`: the least k with 2^k >= n |
| JsNum.IsPow2Iff | 2048/tournament.js:964 | padding n to `2^ceil(log2 n)` leaves n unchanged exactly when n is a power of two |
| JsNum.NatStringRoundTrip | 2048/tournament.js:1572 | the decimal text that `place + suffix` produces for a place reads back as the same number |
| Roster.AverageOrDefault | 2048/tournament.js:955 | `average \|\| 160`: a truthy average is kept, while a zero or missing one becomes 160, so the result is never 0 |
| Roster.ToParticipant | 2048/tournament.js:951-957 | the participant id is the registration's user id, or its own id when there is no user; name, email and skill carry over; the average is the registration's when truthy and is never 0 |
| Brackets.BracketSize | 2048/tournament.js:964 | the padded size is a power of two of at least n, and less than 2n |
| Brackets.BuildBracket | 2048/tournament.js:947-1002 | a bracket is built exactly when at least one bowler is registered |
| Brackets.LaterRoundsShape | 2048/tournament.js:985-1000 | halving from 2^k matches gives k more rounds, round r having 2^(k-1-r) blank matches |
| Brackets.BuildRoundSizes | 2048/tournament.js:964-1000 | for n >= 2, the bracket has ceil(log2 n) rounds and round r has 2^(k-1-r) matches |
| Brackets.BuildShape | 2048/tournament.js:964-1000 | each round halves the previous one down to a single final; there are log2(size) rounds (one for a lone bowler); round r has size/2^(r+1) matches |
| Brackets.HalvingShaped | 2048/tournament.js:985-1000 | round sizes 2^(k-1), ..., 2, 1 halve from round to round down to one final, and round r times 2^(r+1) is the padded size |
| Brackets.BuildContents | 2048/tournament.js:951-999 | participants are the roster in order; round 0 pairs entries 2i and 2i+1, an entry past the roster being an empty slot; every later match starts blank |
| Brackets.EveryBowlerSeated | 2048/tournament.js:973-983 | nobody registered is left out: roster entry k sits in round 0, in slot `player1` of match k/2 when k is even and `player2` when k is odd |
| Seeding.Insert | 2048/tournament.js:1024-1025 | one insertion step of the stable sort, adding exactly one element |
| Seeding.InsertSorted | 2048/tournament.js:1024-1025 | insertion keeps the order descending by average |
| Seeding.InsertWithKey | 2048/tournament.js:1024-1025 | insertion puts the new element after every element with the same key |
| Seeding.StableSeed | 2048/tournament.js:1024-1025 | the seeded roster is a permutation of the registrations |
| Seeding.StableSeedIsStable | 2048/tournament.js:1024-1025 | the seeded roster is sorted by average, highest first (missing counts as 0), and bowlers with equal averages keep their registration order (stability of `Array.prototype.sort`) |
| Seeding.StableSeedingUnique | 2048/tournament.js:1024-1025 | any two stable descending orders of the same roster are identical, so the seeding is fully determined |
| Seeding.SortedKeysUnique | 2048/tournament.js:1024-1025 | two descending sequences with the same per-average subsequences are equal |
| Seeding.WithKeyAppend | 2048/tournament.js:1024-1025 | the per-average subsequence of a concatenation is the concatenation of the parts' subsequences |
| Tournaments.FindTournament | 2048/tournament.js:948 | `tournaments.find(t => t.id === id)`: the first tournament with that id, or none (always none for a `NaN` id) |
| Tournaments.GenerateBracket | 2048/tournament.js:947-1002 | an empty roster changes nothing; otherwise the tournament's stored bracket becomes the one built from its registrations (so `BuildShape`, `BuildContents` and `CanCompleteIff` apply to it), and nothing else in it or in any other tournament changes |
| Tournaments.AutoSeed | 2048/tournament.js:1009-1031 | an unknown tournament or an empty roster changes nothing; otherwise the registrations become a descending permutation of themselves, the bracket is rebuilt from that order, the tournament's id, name, deadline and maximum are unchanged, and every other tournament is unchanged |
| Tournaments.AutoSeedIsStable | 2048/tournament.js:1023-1027 | the stored registration order is the stable descending seeding of the old one |
| Tournaments.MissingAverageSeededLast | 2048/tournament.js:1024-1025 | a bowler without an average is seeded behind every bowler with a positive one (sort key `\|\| 0`), yet the bracket shows them with 160 (`\|\| 160` at line 955) |
| Tournaments.Reloaded | 2048/tournament.js:290-301 | a save and a reload keep a numeric maximum as it was, turn a `NaN` (or `null`) maximum into `null`, and change no other field that a modelled operation reads |
| Tournaments.NaNMaximumFullAfterReload | 2048/tournament.js:2317-2318 | a registration that a `NaN` maximum lets through is refused as full once the store has been saved and reloaded |
| Tournaments.FindBowlerByEmail | 2048/tournament.js:2352 | the first directory bowler with the registration's email, or none |
| Tournaments.UpsertBowler | 2048/tournament.js:2351-2373 | an unknown email appends an active bowler with the registration's details; a known one is left alone unless its average is falsy, in which case only the average is filled in; afterwards the email is always found; unique emails stay unique |
| Tournaments.UpsertBowlerIdempotent | 2048/tournament.js:2351-2373 | with a non-zero average, repeating the directory update for the same registration changes nothing |
| Tournaments.SubmitRegistration | 2048/tournament.js:2293-2349 | each refusal (unknown tournament, passed deadline, already registered, full) happens exactly when its condition holds and every earlier check passed; on success exactly one registration (id `now`, average defaulted to 160) is appended to the tournament and to the global list, the directory is upserted with id `now+1` (one clock reading, see "Left out"), the cap is respected and the user is registered; a `NaN` maximum never refuses and a `null` one (a reloaded `NaN`) always does |
| Tournaments.SameEmailAccepted | 2048/tournament.js:2293-2349 | after one user registers, a second user with the same email is accepted for the same tournament (only the user id is checked), so two registrations share the email |
| Tournaments.RegistrationKeepsCapacity | 2048/tournament.js:2316-2320 | no accepted registration makes any tournament exceed its maximum |
| Tournaments.SecondRegistrationRefused | 2048/tournament.js:2310-2314 | after an accepted registration, the same user registering for the same tournament is refused as a duplicate, or for a passed deadline if time has moved on |
| Tournaments.FindAfterUpdate | 2048/tournament.js:2343-2346 | changing a tournament's registrations in place does not change which tournament an id finds |
| Progression.SetMatch | 2048/tournament.js:1973-1979 | updating one match in place leaves every other match and the bracket's shape alone |
| Progression.SubmitScore | 2048/tournament.js:1961-2002 | the score is stored; a strictly higher score makes that player the winner; a decisive result fills slot player1 (even index) or player2 (odd index) of match i/2 in the next round; a tie or `NaN` score only stores the score; nothing else changes |
| Progression.Champion | 2048/tournament.js:1976-2002 | there is a champion exactly when the final has a winner, and the champion is that winner |
| Progression.ShapedInBounds | 2048/tournament.js:1992-1995 | in a well-shaped bracket the next-round match `floor(i/2)` always exists |
| Progression.BuiltConsistent | 2048/tournament.js:947-1000 | a freshly built bracket is consistent with its own round-0 pairings |
| Progression.SubmitKeepsConsistent | 2048/tournament.js:1976-2002 | a score entered through the bracket view's gate (lines 1057 and 1931-1934) keeps the bracket consistent |
| Progression.SubmitKeepsPairings | 2048/tournament.js:1976-2002 | scoring never changes a first-round slot |
| Progression.SubmitKeepsWinners | 2048/tournament.js:1982-2001 | after scoring, every winner is one of its match's two players, including in the match the winner moves into |
| Progression.SubmitKeepsFed | 2048/tournament.js:1991-2002 | after scoring, every filled later-round slot holds the winner of the match feeding it |
| Progression.PlayKeepsConsistent | 2048/tournament.js:1961-2002 | any session of score entries keeps the bracket consistent and its number of rounds |
| Progression.ByeBlocksWinner | 2048/tournament.js:1931-1934 | a match downstream of a bye can never get a winner, since the gate needs both players |
| Progression.LastMatchHasBye | 2048/tournament.js:974-1000 | a bye in the last first-round match lies below the last match of every round |
| Progression.BuiltByeIff | 2048/tournament.js:974-982 | a built bracket has an empty first-round slot exactly when the roster is not a power of two of at least two |
| Progression.BuiltNoBye | 2048/tournament.js:974-982 | a roster of 2^k bowlers (k >= 1) fills every first-round slot |
| Progression.BuiltLastBye | 2048/tournament.js:974-982 | any other roster leaves the second slot of the last first-round match empty |
| Progression.ByeBracketNeverCompletes | 2048/tournament.js:964-1002 | a bracket built for 1, 3, 5, 6, 7, ... bowlers never has a champion, whatever scores are entered |
| Completion.PlayAppend | 2048/tournament.js:1961-2002 | two sessions of score entries, one after the other, act as one session |
| Completion.StepMidway | 2048/tournament.js:1982-2002 | scoring the next match of a round decides it and fills its next-round slot with a participant |
| Completion.PlayRestOfRound | 2048/tournament.js:1982-2002 | scoring the rest of a round decides every match of the round |
| Completion.NextRoundReady | 2048/tournament.js:1992-2001 | a fully decided round leaves every next-round match ready to be scored |
| Completion.PlayToTheEnd | 2048/tournament.js:1961-2002 | from a ready round, playing the remaining rounds in order finishes the bracket |
| Completion.FullBracketCompletes | 2048/tournament.js:964-1002 | a bracket built for 2^k bowlers (k >= 1) can be played to a champion |
| Completion.CanCompleteIff | 2048/tournament.js:964-1002 | a built bracket can be completed exactly when the roster size is a power of two of at least two |
| Scheduling.MatchesBeforeTail | 2048/tournament.js:1120-1133 | matches before round r count the first round plus those before round r-1 of the rest |
| Scheduling.EntryAt | 2048/tournament.js:1118-1133 | the entry for round r, match k sits at index (matches before r)+k, carries the match id and round number r+1, and starts at start + index*duration + 30*r minutes |
| Scheduling.EntriesTiming | 2048/tournament.js:1118-1133 | the schedule has exactly one entry per match, each placed and timed as in `EntryAt` |
| Scheduling.EntriesLength | 2048/tournament.js:1120-1130 | the schedule has as many entries as the bracket has matches |
| Scheduling.GenerateSchedule | 2048/tournament.js:1097-1136 | refuses exactly when the id is falsy or the start is missing, or when the tournament has no bracket; otherwise the new schedule, last in the list, covers every match with the stated timing, and the schedules before it are exactly the old ones of other tournaments, in their old order (`WithoutTournament`) |
| Scheduling.WithoutTournamentIsFilter | 2048/tournament.js:1135 | `schedules.filter(s => s.tournamentId !== id)`: a single schedule is kept exactly when it belongs to another tournament, and the filter distributes over concatenation, so the kept schedules keep their order and repetitions |
| Scheduling.LaneFor | 2048/tournament.js:1197 | with a truthy lane count L the lane is `(index % L) + 1`, between 1 and \|L\|; otherwise it is `NaN` |
| Scheduling.LaneLoadBalanced | 2048/tournament.js:1196-1201 | of n entries, lane l receives floor(n/L) or floor(n/L)+1, the extra going to the first n mod L lanes |
| Scheduling.LaneLoadCounts | 2048/tournament.js:1191-1203 | the number of entries actually assigned to each lane is that balanced load |
| Scheduling.FindSchedule | 2048/tournament.js:1184 | `schedules.find` by tournament id: the first match, or none |
| Scheduling.AutoAssignLanes | 2048/tournament.js:1174-1203 | refuses exactly when the id is falsy or no schedule exists; otherwise only the first schedule of that tournament changes, and in it only the lanes: entry g gets lane `(g % L) + 1` (in 1..\|L\|) under the sequential or balanced method, `NaN` when L is falsy, and an unrecognised method changes nothing |
| Selection.IdsCountDistinct | 2048/tournament.js:722 | a selection has as many distinct ids as bowlers exactly when no id repeats, the property the `some` check before `push` protects |
| Selection.FindBowler | 2048/tournament.js:719 | `bowlerDatabase.find`: the first directory bowler with the id, or none when no bowler has it |
| Selection.AddToSelection | 2048/tournament.js:718-727 | an unknown id or an already selected one leaves the selection exactly as it was; otherwise the directory bowler is appended; an id becomes selected exactly when it was already selected or the directory has it; other ids are unaffected; distinct ids stay distinct |
| Selection.RemoveIsFilter | 2048/tournament.js:730-731 | `selectedBowlersForTournament.filter(b => b.id !== id)`: a single bowler is kept exactly when its id differs, and the filter distributes over concatenation, so the remaining selection keeps its order (the future registration and pairing order) and its repetitions |
| JsArray.FilterAppend | 2048/tournament.js:731 | `Array.prototype.filter` distributes over concatenation |
| Selection.RemoveFromSelectionIds | 2048/tournament.js:730-731 | removal takes exactly that id out of the selected ids |
| Selection.RemoveKeepsDistinct | 2048/tournament.js:730-731 | removal keeps the selected ids distinct |
| Selection.RemoveUndoesAdd | 2048/tournament.js:718-731 | adding an unselected bowler and then removing it restores the selection exactly |
| Selection.RemoveAbsent | 2048/tournament.js:730-731 | removing an unselected id changes nothing |
| Selection.RemoveAppend | 2048/tournament.js:730-731 | removal ignores a suffix made only of bowlers with that id |
| Selection.RemoveAllMatching | 2048/tournament.js:730-731 | removal empties a selection made only of that id |
| Ordinal.PlaceSuffixIsEnglish | 2048/tournament.js:1569-1573 | for every place >= 0 the table lookup equals the English rule: 11th-13th in each hundred, otherwise st/nd/rd after 1/2/3, else th |
| Ordinal.TableIsEnglish | 2048/tournament.js:1570-1572 | for v = place % 100 in 0..99, `suffixes[(v - 20) % 10] \|\| suffixes[v] \|\| suffixes[0]` is the English suffix of v |
| Ordinal.NonPositivePlaceSuffix | 2048/tournament.js:1569-1573 | zero and negative places get "th" |
| Ordinal.PlaceSuffixExamples | 2048/tournament.js:1569-1573 | 1st, 2nd, 3rd, 4th, 11th, 12th, 13th, 21st, 22nd, 101st, 111th |
| Ordinal.PlaceStringExamples | 2048/tournament.js:1569-1573 | the full strings "1st", "11th", "22nd", "101st", "111th" |

## Left out

- The DOM, toasts, `alert`, the activity log, modals and re-rendering (`loadBracket`, `displaySchedule`, `updateSelectedBowlersList`, `filterAvailableBowlers`) are display with no effect on the modelled state.
- `localStorage` persistence (`saveToLocalStorage` and `loadFromLocalStorage`, lines 289-306) is modelled only where a save and a reload change what a modelled operation reads. `JSON.stringify` writes `NaN` as `null`, so a `NaN` maximum comes back as `null` (`Tournaments.ReloadStore`), and the capacity check then refuses every registration that passes the earlier checks (`Tournaments.NaNMaximumFullAfterReload`). A lane computed from a `NaN` lane count and a `NaN` score also come back as `null`, but no modelled operation reads either after a reload, so the model keeps them as `NaN`.
- `Date.now()`, `new Date()` and the deadline's date parsing are parameters. The clock and a deadline are millisecond timestamps; a deadline is an optional integer, where `None` stands for an unparseable date, which compares false. Schedule times are counted in whole minutes from the start, since the source only ever adds `minutes * 60000` milliseconds to the start date.
- The clock is read once per operation, as one `now`. The source calls `Date.now()` afresh for every first-round match id (line 976), every later-round match id (line 992), the deadline comparison (line 2305), the registration id (line 2329) and a new directory bowler's id (line 2355), so those values can differ by the milliseconds that pass between the calls.
- Tournaments.GenerateBracket: requires the tournament to exist. When it does not, the source dereferences `tournament.registrations` before its own `!tournament` check, so it throws. Every caller passes an existing id.
- Brackets.BracketSize: computed with exact integer arithmetic. Floating-point rounding in `Math.log2` is not modelled.
- Progression.SubmitScore: requires the match to be in range and scorable. This is the bracket view's gate (a Score button only when both players are participants and there is no winner, and the same check in the score modal). Scores entered any other way, such as by editing hidden fields, are not modelled. `Progression.Step` ignores submissions the gate would not let through.
- Progression.SubmitScore: the model's state is the in-memory bracket. On a tie or a `NaN` score the code shows the warning "Scores cannot be tied!" and returns (line 1988) before `saveToLocalStorage` (line 2004), so the score modal stays open and the stored score reaches `localStorage` only with a later save. The warning, the open modal and the post-score toasts are left out.
- Scheduling.GenerateSchedule: the start date is `Option<int>`, so a non-empty but invalid date string, which gives `NaN` times, is not modelled. The duration is an integer, and a `NaN` duration is not modelled.
- Scheduling.AutoAssignLanes: the `random` method uses `Math.random` and is left out.
- The first `submitBowlerRegistration` (line 1589) is left out. The later definition at line 2293 replaces it, so only that one runs.
- The registration and directory timestamps (`registeredAt`, `createdAt`, `updatedAt`), `status` fields and the `notes` text are not modelled.
- `saveTournamentBowlers` (lines 736-753) is left out. It copies the selection into the tournament's registrations with random ids (`Date.now() + Math.random()`), which the integer ids here cannot represent.
- `showManageBowlersModal` (lines 612-640) is left out. It goes the other way: it builds the starting selection from the tournament's registrations, taking for each one the first directory bowler with the same email (line 621), or a temporary entry with id `userId || id`. It does not skip repeats.
- Selection.AddToSelection: "distinct ids stay distinct" holds only for a selection that starts without repeated ids, which the source does not guarantee. Registration checks the user and never the email (lines 2310-2314, `Tournaments.SameEmailAccepted`), so two registrations can share an email. Both then map to the same directory bowler, and the selection that `showManageBowlersModal` opens holds that id twice. Adding still refuses a further copy (line 722).
- Selection.RemoveKeepsDistinct: likewise assumes a selection without repeated ids, which the source does not guarantee (see the previous line). Removal drops every copy of the id either way (line 731).
- Selection.IdsCountDistinct: it states when a selection has repeated ids. It does not promise that the source's selections are free of them.
- Prizes, CSV export, email, the version check, authentication, `formatTournamentType` and `showSection` are outside the tournament core.
- Ids are not assumed distinct. With the clock read once, match ids are `now+i` in round 0 and `now+i+1000` later, so they can collide. No modelled operation looks a match up by id.

## Notes on behaviour

Some behaviour of the code is easy to misread. The model follows the code:

- A tied score, or a `NaN` one, is written into the in-memory bracket before the winner test, and the winner is left unchanged. The code then warns "Scores cannot be tied!" and returns before saving (line 1988), with the score modal still open; no error value is returned.
- A maximum entered as a non-number is `NaN` and never fills the tournament. After a save and a reload it is `null`, and `length >= null` refuses every registration as full (`Tournaments.NaNMaximumFullAfterReload`).
- Scoring has no error results. Out-of-range indices and incomplete matches are excluded by the bracket view's gate, which is a precondition here.
- Byes are never advanced automatically, so a bracket with a bye can never finish (`Progression.ByeBracketNeverCompletes`).
- A single bowler gets a one-match bracket with an empty opponent.
- Seeding compares a missing average as 0, not 160. The bracket still displays 160 (`Tournaments.MissingAverageSeededLast`).
