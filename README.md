# Disc Golf Dots: the scoring state, in Dafny

This project models the scoring core of a score-keeper for "Dots", a disc-golf
variant in which each hole offers three dots (drive, on, in). A round is a
sequence of holes. Each hole maps a player's name to the dots that player has
on that hole. The project proves properties of that model.

The model has four modules, one per source file:

- `Dots` (`dots.dfy`, from `src/rules/dots.ts`): a hole's dot total and the rule
  that a hole is complete once its total reaches 3.
- `Scores` (`scores.dfy`, from `src/hooks/useScores.ts`): the score store.
  - `CreateEmptyScores` builds a zeroed round.
  - `ReconcileScores` rebuilds a round for a new hole count and roster.
  - `ChangedScores` adds a delta to one cell, clamped at 0.
  - The class `ScoreStore` holds the current round in its field `scores`.
    Its methods `StartNewGame`, `UpdateGame` and `ChangeScore` replace that
    field with the value of the functions above. Its invariant is that no
    cell is ever negative.
- `Scoreboard` (`scoreboard.dfy`, from `src/components/ScoreSlider.tsx`): what the
  slider derives from a round.
  - Each player's total, and the totals table.
  - The final scoreboard order: highest total first, equal totals by name.
  - The clamped slide index and the condition for offering Finish Round.
- `GameSettings` (`game_settings.dfy`, from `src/components/GameSettingsContent.tsx`):
  the settings form.
  - A JavaScript-style trim.
  - Adding a player: the trimmed name is appended, an empty name is refused,
    and so is an 11th player.
  - Removing a player by position.
  - The class `SettingsForm` holds the fields `holes`, `playerName` and
    `players`. Its invariant keeps the roster at 10 names or fewer.

How the code behaves at its edges, and the model with it:

- `changeScore` clamps the new value at 0 (`src/hooks/useScores.ts:47-50`):
  a cell never goes below 0.
- Neither a zero hole count nor an empty roster is rejected when a round is
  created or reconciled: zero holes gives `[]`.
- A hole index outside the round changes nothing (`prev.map` matches no
  hole), so `ChangedScores` returns the round unchanged.

Assumptions made by the model:

- `localeCompare` in the scoreboard tie-break is modelled as plain
  lexicographic order on character code points (`NameLessEq`). Ties between
  names that differ in case or accents are therefore ordered by code point,
  not the way the app shows them: every upper-case initial comes before every
  lower-case one, so "Bob" stands before "alice", where `localeCompare` in
  common locales puts "alice" first.
- JavaScript's `Array.prototype.sort` is modelled as an insertion sort
  (`SortByTotals`). `RankedUnique` proves that any arrangement of the players
  ordered by the comparator is that same sequence. So the result does not
  depend on the sorting algorithm the engine uses.
- A hole's sum is taken over a Dafny `map`, which has no key order.
  `TotalDotsRemove` proves that the order in which values are added does not
  change the total.
- Numbers are unbounded integers; the hole count is a natural number.

## Model

| member | source | states |
|---|---|---|
| `Dots.TotalDots` | src/rules/dots.ts:5-9 | a hole's dot total; it is non-negative when every value on the hole is |
| `Dots.TotalDotsRemove` | src/rules/dots.ts:5-9 | the total is any one player's value plus the total of the rest, so the order of summation does not matter |
| `Dots.IsHoleComplete` | src/rules/dots.ts:11-13 | a hole is complete when its dot total is at least DOTS_PER_HOLE = 3; a complete hole has some player with a positive value |
| `Dots.NonPositiveTotal` | src/rules/dots.ts:5-9 | a hole with no positive value has a total of at most 0 |
| `Dots.EmptyHoleTotal` | src/rules/dots.ts:5-13 | an empty hole totals 0 and is not complete |
| `Dots.AllZeroTotal` | src/rules/dots.ts:5-13 | a hole whose values are all 0 totals 0 and is not complete |
| `Dots.SetValueTotal` | src/rules/dots.ts:5-9 | setting one value to v moves the total by exactly v minus the old value |
| `Dots.CompleteMonotone` | src/rules/dots.ts:11-13 | raising one value keeps a complete hole (total at least DOTS_PER_HOLE = 3) complete |
| `Dots.AddZeroPlayer` | src/rules/dots.ts:5-13 | adding a player key with value 0 changes neither the total nor completeness |
| `Scores.Cell` | src/hooks/useScores.ts:20 | a player's value on a hole, a missing entry read as 0 (`?? 0`, also at `ScoreSlider.tsx:33`); non-negative on a hole without negative values, 0 on an all-zero hole |
| `Scores.ZeroHole` | src/hooks/useScores.ts:9 | a hole whose keys are exactly the roster, every value 0 |
| `Scores.CreateEmptyScores` | src/hooks/useScores.ts:4-10 | the round has `holes` holes; each hole's keys are exactly the roster, each mapped to 0 |
| `Scores.ReconcileScores` | src/hooks/useScores.ts:12-22 | the round has `holes` holes; each hole's keys are exactly the new roster, whatever the old keys were; a value recorded on a surviving hole for a retained player is carried over; a new hole or a player absent from the old hole gets 0 |
| `Scores.ReconcileHole` | src/hooks/useScores.ts:18-21 | one rebuilt hole: its keys are exactly the roster, each with the value on the old hole of that index or 0; past the old round it is the zero hole; an old hole already keyed by the roster comes back unchanged |
| `Scores.Clamped` | src/hooks/useScores.ts:47-50 | the new cell value is the larger of 0 and old value plus delta |
| `Scores.ChangedScores` | src/hooks/useScores.ts:42-53 | same number of holes; an index outside the round changes nothing; otherwise the cell becomes the clamped sum, never negative, and every other hole and every other player on that hole is unchanged |
| `Scores.ReconcileShapedIdentity` | src/hooks/useScores.ts:12-22 | on a round already shaped for the hole count and roster, reconciling is the identity |
| `Scores.ReconcileIdempotent` | src/hooks/useScores.ts:12-22 | reconciling twice with the same settings equals reconciling once |
| `Scores.ReconcileEmptyIsCreate` | src/hooks/useScores.ts:4-22 | reconciling the empty round gives the same round as starting a new game |
| `Scores.ReconcileCreateIdentity` | src/hooks/useScores.ts:4-22 | a freshly created round is unchanged by reconciling it with the same settings |
| `Scores.ReconcileExample` | src/hooks/useScores.ts:17-21 | two holes of {A:1, B:2} reconciled to 3 holes for [A, C] give [{A:1, C:0}, {A:1, C:0}, {A:0, C:0}] |
| `Scores.NonNegativePreserved` | src/hooks/useScores.ts:4-53 | creating, reconciling and changing a score never produce a negative value from a round without one |
| `Scores.ChangePreservesShape` | src/hooks/useScores.ts:42-53 | changing a score keeps the hole count and every hole's key set |
| `Scores.ChangeScoreTotalDots` | src/hooks/useScores.ts:43-52 | the changed hole's dot total moves by exactly the change of the cell |
| `Scores.ChangeScoreKeepsComplete` | src/hooks/useScores.ts:43-52 | adding a non-negative delta never makes a complete hole incomplete |
| `Scores.CreatedHolesIncomplete` | src/hooks/useScores.ts:4-10 | no hole of a freshly created round is complete |
| `Scores.ScoreStore.constructor` | src/hooks/useScores.ts:25 | the store starts with the empty round, which satisfies the no-negative-cell invariant |
| `Scores.ScoreStore.StartNewGame` | src/hooks/useScores.ts:27-29 | the round becomes the zeroed round for the settings; the invariant holds |
| `Scores.ScoreStore.UpdateGame` | src/hooks/useScores.ts:31-35 | the round becomes the old round reconciled with the settings; the invariant is kept |
| `Scores.ScoreStore.ChangeScore` | src/hooks/useScores.ts:37-55 | the round becomes the old round with the one cell changed and clamped; length and invariant are kept |
| `Scoreboard.PlayerTotal` | src/components/ScoreSlider.tsx:32-35 | a player's total: the values on every hole added from hole 0 on, a missing entry counting 0; non-negative in a round without negative values |
| `Scoreboard.TotalScores` | src/components/ScoreSlider.tsx:30-39 | the totals table has exactly the current players as keys, each mapped to that player's sum over all holes |
| `Scoreboard.PlayerTotalAppend` | src/components/ScoreSlider.tsx:32-35 | a player's total over two runs of holes is the sum of the two totals |
| `Scoreboard.PlayerTotalCellwise` | src/components/ScoreSlider.tsx:32-35 | rounds that agree on a player's cells, a missing entry counting 0, give that player equal totals |
| `Scoreboard.PlayerTotalZero` | src/components/ScoreSlider.tsx:32-35 | a player absent from or 0 on every hole has a total of 0 |
| `Scoreboard.CreateEmptyTotal` | src/components/ScoreSlider.tsx:32-35 | every total of a freshly created round is 0 |
| `Scoreboard.ReconcileKeepsTotal` | src/components/ScoreSlider.tsx:32-35 | reconciling keeps a retained player's total when no hole is dropped; when holes are dropped, the total becomes the one over the remaining holes |
| `Scoreboard.ChangeScoreTotal` | src/components/ScoreSlider.tsx:32-35 | changing a cell moves that player's total by the cell's change and leaves every other total unchanged |
| `Scoreboard.TotalScoresExample` | src/components/ScoreSlider.tsx:30-39 | holes {A:1, B:2} and {A:3, B:0} with players [A, B] give totals {A:4, B:2} |
| `Scoreboard.TotalsMatchHoleDots` | src/components/ScoreSlider.tsx:30-39 | on a round whose holes are keyed by a roster without repeated names, the players' totals add up to the sum of the holes' dot totals |
| `Scoreboard.NameLessEq` | src/components/ScoreSlider.tsx:71 | the name tie-break, standing in for `localeCompare`: lexicographic order on code points, in which a prefix comes first and otherwise the first differing character decides |
| `Scoreboard.RanksBefore` | src/components/ScoreSlider.tsx:67-72 | the comparator: `a` may stand before `b` when its total is higher, or equal with a name not after `b`'s; a higher total always ranks first, a lower one never does, and every name ranks before itself |
| `Scoreboard.Insert` | src/components/ScoreSlider.tsx:67-72 | inserting a name into a list ordered by the comparator gives an ordered list with that name added |
| `Scoreboard.SortByTotals` | src/components/ScoreSlider.tsx:67-72 | the sorted copy is a permutation of the players, ordered by the comparator |
| `Scoreboard.RankedUnique` | src/components/ScoreSlider.tsx:67-72 | two permutations of the same players that are both ordered by the comparator are equal |
| `Scoreboard.SortedTotals` | src/components/ScoreSlider.tsx:67-72 | the scoreboard is a permutation of the players; no player stands before one with a strictly larger total; equal totals are in ascending name order |
| `Scoreboard.ScoreboardDetermined` | src/components/ScoreSlider.tsx:67-72 | any arrangement of the players ordered by the comparator is exactly the scoreboard |
| `Scoreboard.ClampedSlide` | src/components/ScoreSlider.tsx:57-58 | the slide index is the current hole or the hole count, whichever is smaller, so it never passes the Final slide |
| `Scoreboard.FinishOffered` | src/components/ScoreSlider.tsx:117 | Finish Round is offered when the current hole equals the hole count, the Final slide; then the clamped slide index sits on the Final slide, and for a current hole up to the Final slide it is offered exactly when the clamped index is there |
| `GameSettings.LeadingTrimmable` | src/components/GameSettingsContent.tsx:37-38 | counts exactly the leading run of trimmable characters: all of them trimmable, the next one not |
| `GameSettings.TrailingTrimmable` | src/components/GameSettingsContent.tsx:37-38 | counts exactly the trailing run of trimmable characters: all of them trimmable, the one before not |
| `GameSettings.Trim` | src/components/GameSettingsContent.tsx:37-38 | the trimmed name is the part of the typed text after its leading trimmable characters; it neither starts nor ends with a trimmable character; everything after it is trimmable; it is empty exactly when the typed text is all trimmable characters |
| `GameSettings.TrimIdempotent` | src/components/GameSettingsContent.tsx:37-38 | trimming a trimmed name changes nothing |
| `GameSettings.IsTrimmable` | src/components/GameSettingsContent.tsx:37-38 | the characters `trim()` removes: ECMAScript white space and line terminators; among ASCII characters exactly the space and tab through carriage return |
| `GameSettings.CanAdd` | src/components/GameSettingsContent.tsx:37 | the guard of adding a player: it passes exactly when the typed text holds a character a trim keeps and the roster has fewer than MAX_PLAYERS = 10 names |
| `GameSettings.AddedPlayer` | src/components/GameSettingsContent.tsx:36-40 | with a non-empty trimmed name and fewer than MAX_PLAYERS = 10 names, the trimmed name is appended after the unchanged roster; otherwise the roster is unchanged; a roster of at most 10 names stays at most 10 |
| `GameSettings.RemovedAt` | src/components/GameSettingsContent.tsx:42-44 | exactly the entry at the index is removed and the others keep their order; an index outside the roster changes nothing |
| `GameSettings.EditsKeepCap` | src/components/GameSettingsContent.tsx:36-44 | starting from at most 10 names, any sequence of add and remove edits leaves at most 10 names |
| `GameSettings.SettingsForm.constructor` | src/components/GameSettingsContent.tsx:20-22 | the form opens with 18 holes, an empty name and an empty roster |
| `GameSettings.SettingsForm.SetPlayerName` | src/components/GameSettingsContent.tsx:71 | the name input takes the typed text; nothing else changes |
| `GameSettings.SettingsForm.SetHoles` | src/components/GameSettingsContent.tsx:55 | the hole count takes the entered number; nothing else changes |
| `GameSettings.SettingsForm.AddPlayer` | src/components/GameSettingsContent.tsx:36-40 | the roster becomes the added-player roster; the input is cleared only when a name was added; the cap of 10 is kept; after a name was added, Start New Game is enabled |
| `GameSettings.SettingsForm.RemovePlayer` | src/components/GameSettingsContent.tsx:42-44 | the roster loses exactly the entry at the index, or nothing for an index outside it; the cap is kept; afterwards Start New Game is disabled exactly when the roster was empty or its only name was removed |
| `GameSettings.SettingsForm.StartDisabled` | src/components/GameSettingsContent.tsx:114 | Start New Game is disabled exactly when the roster is empty; the Add button is then enabled, and a name can be added exactly when its trim is not empty |
| `GameSettings.SettingsForm.AddDisabled` | src/components/GameSettingsContent.tsx:74-79 | the name input and Add button are disabled once the roster is full, and then no name can be added |

## Left out

- The per-hole achievement resolver (assigning drive/on/in, toggling bonus and penalty marks, clearing assignments) is not part of this model. No code for it appears in the source files.
- Finishing a round is not modelled. `src/App.tsx` calls a `resetGame` that `useScores` does not return (`src/hooks/useScores.ts:57-62`), and the model invents no reset beyond the store's empty starting round.
- `Scores.ChangedScores`: requires the player to be a key of the hole when the index is in range. For an absent player the source computes `undefined + delta`, which is NaN, and the model does not represent NaN.
- `Scores.ReconcileScores`: a player whose name is a property inherited by every JavaScript object (such as `constructor`) reads as present on an old hole that lacks it. The model treats every absent key as missing and gives 0.
- `Scoreboard.TotalScores`: the totals table is modelled as a plain map with one key per player. In the source it is a plain object (`src/components/ScoreSlider.tsx:30-32`), so for a roster name `__proto__` the assignment goes to the inherited setter, which ignores a number. That player then has no entry in the table, while the model gives the player a key and a total.
- `Scoreboard.SortedTotals`: the order is modelled over that plain map. For a roster name `__proto__` the source comparator (`src/components/ScoreSlider.tsx:68-69`) reads `Object.prototype` through `?? 0`, and the subtraction gives NaN. The sort treats NaN as equal, so that player's place depends on the engine, while the model gives the player a total of 0 and a fixed rank.
- The hole count comes from `Number(...)` on a text input, which can give NaN or a fraction; the model takes a natural number, and the input's `min`/`max` of 1 and 36 are not modelled.
- Loading earlier settings into the form (`src/components/GameSettingsContent.tsx:29-34`) and handing them to the start/update callbacks are view wiring and are not modelled.
- The slider library calls (`useKeenSlider`, `update`, `moveToIdx`), rendering, the menus and modals are presentation code and are not modelled; only the clamped slide index and the Finish Round condition are.
- The per-hole completeness flag shown on each thumbnail is `IsHoleComplete` applied to each hole; the thumbnail itself is not modelled.
- The hole-18 scoring rule and the V dot appear only in the How-to-Play text; no code implements them.
- JavaScript number precision is not modelled: values are unbounded integers.
