# Falling-block character game: a Dafny model of its game mechanics

The game drops Chinese characters as square blocks into a playfield of
cells. It has three modes:

- **ROTATE**: the player turns the falling character upright before it lands.
- **PINYIN**: the player types the character's pinyin before it lands.
- **IDIOM**: four-character idioms fall shuffled, and the player clicks their
  characters in order.

A landing block that does not score becomes an obstacle in the grid. A
glyph in row 1 ends the game. Right answers count towards a per-level goal,
which is a tenth of the level's dataset.

The same mechanics exist twice: the browser port `static/game.js` and the
pygame prototype `vibe/src/main.py`. Each is modelled as its own class, over
shared modules:

| file | module | what it holds |
|---|---|---|
| `playfield.dfy` | `Playfield` | `Block` and `Grid` classes (identical in both sources): the occupancy table on a 2-D array, `canMove` / `settle` / `clear` / `reachedTop`, and the row scan and sideways move of the handlers |
| `pinyin.dfy` | `ToneMarks` | `stripToneMarks` / `strip_tone_marks`, with idempotence and the tone table |
| `rounds.dfy` | `Rounds` | rules shared by both games: modes, level goal, quarter turns, the unused-character pick, the Fisher–Yates shuffle with its 10-attempt retry (in place on an array), the column draws (the browser's splice loop and the prototype's `random.sample`), the ascending sort, and the whole idiom deal |
| `browser.dfy` | `Browser` | `class Game` of `static/game.js` |
| `prototype.dfy` | `Prototype` | `class Game` of `vibe/src/main.py` |

Both `Game` classes keep one invariant, `Valid()`, through every handler:

- Every falling block is cell-sized, lies inside the playfield and is turned
  by a multiple of 90°.
- At most one block falls in ROTATE/PINYIN, and at most four in IDIOM.
- The clicked blocks spell a prefix of the idiom, one distinct block per
  character.
- The typed answer holds only lower-case ASCII letters.

Where the two sources differ, each class follows its own file:

- **Scoring.** The browser adds `10 × level`. The prototype adds
  `5 × level` in ROTATE/PINYIN and 10 in IDIOM.
- **Level-up.** The prototype's `award_points` calls `next_level` once the
  goal is reached. The browser never advances a level during play.
- **Fall step.** The prototype lands a block one step early when the step
  would reach the floor. The browser's fractional step is truncated (see
  "Left out").
- **Answer check.** The prototype re-checks the answer on every key code up
  to 127, so Space after a completed answer scores again. The browser checks
  only after a letter.
- **Arrow keys.** The prototype moves on the key event. The browser moves on
  the next frame from the set of held keys, and its buttons are rate-limited
  to one per 100 ms.
- **Frame loop.** The prototype walks the live list of falling blocks,
  which a landing shortens. The browser walks a snapshot of it.

Randomness is an oracle `rand: nat -> nat`. The counter `drawn` records how
many draws were made, in the sources' own order. Wall-clock time is a `now`
parameter. Every property holds for every oracle and every clock.

## Model

| member | source | states |
|---|---|---|
| Playfield.Block.constructor | static/game.js:26-34 | a block at the given position, size, glyph and angle, not settled |
| Playfield.Grid.constructor | static/game.js:50-61 | `cols` and `rows` are the floored quotients of the pixel size by the cell; every cell is empty |
| Playfield.Grid.Clear | static/game.js:63-69 | every cell is empty afterwards, so the game is not over |
| Playfield.Grid.CanMove | static/game.js:71-95 | true exactly when the square is inside the side walls, not below the floor, and every cell of its clamped footprint is empty |
| Playfield.Grid.Settle | static/game.js:97-103 | the glyph is written in the clamped cell of the block's top-left corner, and no other cell changes |
| Playfield.Grid.ReachedTop | static/game.js:105-120 | true exactly when row 1 (row 0 on a grid of fewer than two rows) holds a glyph |
| Playfield.Grid.ScanRow | static/game.js:824-828 | true exactly when some cell of the row between the two columns holds a glyph |
| Playfield.Grid.ShiftIfFree | static/game.js:369-380 | x changes by exactly `dx` when `canMove` accepts the shifted square, and stays otherwise |
| Playfield.Grid.SettledSquareRejected | vibe/src/main.py:212-233 | once a block inside the walls is settled, `can_move` rejects its own square |
| Playfield.RowCentred | static/game.js:464-476 | a completed idiom laid out from the centred `groupX` stays between the walls |
| Playfield.FourFit | static/game.js:702 | four cells fit across a playfield of at least four columns |
| ToneMarks.ToneBase | static/game.js:10-18 | the tone table: the bare vowel of a tone-marked one is a lower-case letter, and ASCII has none |
| ToneMarks.Lower | static/game.js:19 | lower-casing leaves no upper-case ASCII or upper-case tone vowel, and maps letters to letters |
| ToneMarks.LowerThenUntone | vibe/src/main.py:171 | stripping equals lower-casing the whole text first and then passing every character through the tone table, so the browser's per-character map and the prototype's whole-string `lower()` agree |
| ToneMarks.StripChar | static/game.js:19-21 | one output character is free of tone marks and capitals, and an ASCII letter becomes its lower case |
| ToneMarks.StripToneMarks | static/game.js:9-22 | one output character per input character, each the stripped input character, none tone-marked or upper-case |
| ToneMarks.StripIdempotent | vibe/src/main.py:141-171 | stripping twice equals stripping once |
| ToneMarks.LowerAsciiUnchanged | static/game.js:334-337 | a typed answer of lower-case letters is its own normal form |
| ToneMarks.ToneAndCaseErased | vibe/src/main.py:142 | yī, YĪ and yi normalise alike, and ǚ becomes v |
| Rounds.Below | static/game.js:655-656 | `Math.floor(Math.random() * n)` lies below n |
| Rounds.TargetRight | static/game.js:545-556 | `max(1, floor(n * 0.1))` is at least one, a tenth of n when n ≥ 20, and never more than n allows |
| Rounds.Turn | static/game.js:328 | `(angle + 90) % 360` stays in 0..359 and keeps right angles |
| Rounds.FourTurns | static/game.js:403-413 | four quarter turns restore a right angle, and one turn always changes it |
| Rounds.Unused | static/game.js:644-649 | the filtered dataset is no longer than the dataset |
| Rounds.UnusedMembers | vibe/src/main.py:487-489 | exactly the entries whose character is not used are kept |
| Rounds.PickChar | static/game.js:644-663 | the angle is 90, 180 or 270 in ROTATE and 0 otherwise, the column is valid, and two or three draws are used |
| Rounds.PickCharFacts | vibe/src/main.py:486-499 | the character is an unused one of the level; only when none is left is the used set cleared and the whole level drawn from |
| Rounds.SpawnXInside | static/game.js:662-667 | the clamp never applies, so the block is column-aligned and inside the walls |
| Rounds.Shuffle | static/game.js:691-694 | one Fisher–Yates pass keeps the length |
| Rounds.ShufflePermutes | vibe/src/main.py:518 | a shuffle only rearranges |
| Rounds.Retry | static/game.js:690-698 | up to ten shuffles, stopping at the first that differs from the original |
| Rounds.RetrySameIffEveryAttempt | vibe/src/main.py:516-520 | the retried order equals the original exactly when every one of the ten attempts reproduced it |
| Rounds.RetryPermutes | vibe/src/main.py:513-520 | the retried order is a rearrangement of the characters |
| Rounds.ShuffleInPlace | static/game.js:691-694 | the in-place swap loop yields the specified shuffle and uses one draw per position |
| Rounds.ShuffleWithRetry | static/game.js:689-698 | the in-place retry loop yields exactly `Retry` with ten attempts |
| Rounds.Without | static/game.js:801-802 | `filter(b => b !== blk)` never lengthens the list |
| Rounds.WithoutFacts | vibe/src/main.py:716-717 | removal keeps every other block, keeps the list free of repeats, and drops exactly one block that was there |
| Rounds.Range | static/game.js:700-701 | the available columns number `cols` |
| Rounds.SpliceDraw | static/game.js:702-706 | the splice loop draws exactly k columns |
| Rounds.SpliceDrawFacts | static/game.js:702-706 | every spliced column was available, and none is drawn twice |
| Rounds.PoolDraw | vibe/src/main.py:521 | `random.sample` draws exactly k columns |
| Rounds.PoolDrawFacts | vibe/src/main.py:521 | every sampled column is in the population, and none is drawn twice |
| Rounds.DrawColumns | static/game.js:699-706 | the loop's picks are the specified splice draw, using min(4, cols) draws |
| Rounds.SortAscending | static/game.js:707 | sorting keeps the length and the elements with their multiplicity |
| Rounds.SortMembers | vibe/src/main.py:522 | sorting keeps exactly the elements |
| Rounds.SortAscendingStrict | static/game.js:707 | distinct columns sort strictly ascending |
| Rounds.SpawnColumnsAscending | vibe/src/main.py:521-522 | the idiom's columns are distinct valid columns in strictly ascending order, for both draws |
| Rounds.SpawnColumns | static/game.js:699-707 | min(4, cols) valid columns |
| Rounds.DealIdiom | static/game.js:686-707 | the target is one of the level's idioms, its shuffled characters are as many as its own, and there are min(4, cols) valid columns |
| Rounds.Deal | vibe/src/main.py:511-522 | the draws on an array of characters give exactly the specified deal |
| Rounds.DealFacts | vibe/src/main.py:511-526 | the dealt characters rearrange the target, differ from it unless all ten attempts reproduced it, and lie on distinct ascending columns |
| Browser.TenRows | static/game.js:151-154 | cells of a tenth of the canvas height give at least ten rows |
| Browser.TypeKey | static/game.js:331-335 | only lower-case letters ever enter the answer, at most one per key |
| Browser.BackspaceUndoes | static/game.js:332-335 | Backspace takes back the letter just typed |
| Browser.TypeKeys | static/game.js:331-335 | a run of keys adds at most one character per key |
| Browser.TypingKeepsLetters | static/game.js:331-335 | after any run of keys, an answer of lower-case letters still holds only lower-case letters |
| Browser.TypeLetter | static/game.js:334-335 | a lower-case letter key appends that letter |
| Browser.TypingAppends | static/game.js:334-337 | typing a lower-case word appends exactly that word, so every letters-only answer can be typed |
| Browser.FrameStep | static/game.js:752-763 | the step is the whole-pixel floor of the speed (fast while down is held) scaled by 0.5 in IDIOM and 0.7 in ROTATE/PINYIN, between 1 and 8 pixels |
| Browser.Game.FewBlocks | static/game.js:618-714 | at most one block falls in ROTATE/PINYIN, at most four otherwise, and at most four are clicked |
| Browser.Game.constructor | static/game.js:125-199 | no mode, score 0, level 1, goal 1, empty grid of at least ten rows, invariant established |
| Browser.Game.AwardPoints | static/game.js:581-588 | score grows by exactly `10 * level`, rightCount by one, and the character joins usedChars in ROTATE/PINYIN |
| Browser.Game.SetTargetRight | static/game.js:545-556 | the goal is `TargetRight` of the character dataset in ROTATE/PINYIN and of the idiom dataset otherwise |
| Browser.Game.StartMode | static/game.js:506-543 | mode set, level 1, score 0, rightCount 0, grid and usedChars emptied, goal of level 1, a fresh round |
| Browser.Game.NewSession | static/game.js:523-526 | mode, level 1, score 0, rightCount 0 |
| Browser.Game.NextLevel | static/game.js:558-579 | below the mode's last level: one level up, progress, grid and usedChars reset, new goal, a fresh round; at the last level nothing changes, so level never passes 14 or 6 |
| Browser.Game.LevelUp | static/game.js:566-567 | level plus one, rightCount 0 |
| Browser.Game.ShiftCurrent | static/game.js:369-380 | the falling block moves by `dx` exactly when `canMove` accepts it |
| Browser.Game.RotateCurrent | static/game.js:409-412 | the falling block turns a quarter, and no other block turns |
| Browser.Game.KeyDown | static/game.js:322-343 | the key is held; Space in ROTATE turns the block; in PINYIN the answer is edited, and a letter completing it scores and starts the pause, while anything else scores nothing |
| Browser.Game.TypeAnswer | static/game.js:331-341 | the answer becomes `TypeKey` of the key; scoring exactly when a letter completes it |
| Browser.Game.CheckAnswer | static/game.js:336-340 | scores and starts the one-second pause exactly when the typed text equals the stripped pinyin |
| Browser.Game.KeyUp | static/game.js:345-347 | the key is no longer held |
| Browser.Game.HandleLeft | static/game.js:363-381 | a press within 100 ms of the last accepted one changes nothing; otherwise it is recorded and the block moves one cell left when accepted |
| Browser.Game.HandleRight | static/game.js:383-401 | the same to the right |
| Browser.Game.HandleRotate | static/game.js:403-413 | rate-limited like the moves; in ROTATE the block turns a quarter |
| Browser.Game.FirstPickable | static/game.js:430-436 | the first falling, unclicked block under the point, and none before it |
| Browser.Game.FirstHit | static/game.js:430-436 | the loop finds exactly the first pickable block |
| Browser.Game.RecheckClicks | static/game.js:443-456 | true exactly when the clicked blocks spell the whole idiom |
| Browser.Game.LayOut | static/game.js:459-476 | the completed idiom is a settled row one cell below the top, in click order, inside the walls |
| Browser.Game.Arrange | static/game.js:459-476 | the same, with every laid-out block inside the playfield |
| Browser.Game.SettleClicked | static/game.js:459-463 | every clicked block is settled |
| Browser.Game.PlaceClicked | static/game.js:464-476 | block i of the sequence sits at `groupX + i * size`, `groupY` |
| Browser.Game.Release | static/game.js:491-499 | the sequence empties, the index is 0, and the clicked blocks still on the field fall again; no block leaves the field |
| Browser.Game.Pick | static/game.js:437-500 | the right character extends the sequence and completes it with one award; a wrong one releases the sequence |
| Browser.Game.Advance | static/game.js:437-442 | the block joins the sequence; the last character lays out and scores |
| Browser.Game.Complete | static/game.js:442-478 | the recheck passes, the idiom is laid out, `10 * level` is awarded once and the pause starts |
| Browser.Game.OnCanvasClick | static/game.js:415-504 | outside an open IDIOM round, or off every pickable block, nothing changes; otherwise the first pickable block is handled |
| Browser.Game.Drop | static/game.js:776-920 | wherever the block ends this frame, it stays inside the playfield |
| Browser.Game.NextY | static/game.js:776-920 | the position code computes exactly `Drop` |
| Browser.Game.Land | static/game.js:779-920 | an upright ROTATE block scores and is not written, with a fresh round; any other block is settled in the grid and leaves the field, and the next round starts in ROTATE/PINYIN, or in IDIOM once the field is empty |
| Browser.Game.ScoreUpright | static/game.js:783-789 | `10 * level` awarded and a fresh round |
| Browser.Game.Bury | static/game.js:791-920 | settled in the grid with no score; the respawn rule of the mode |
| Browser.Game.StepBlock | static/game.js:765-921 | a settled block is skipped and nothing changes; a falling one moves to `Drop` and lands exactly when `Drop` says so, and when it does not land the game and grid are unchanged; a block that lands does what `Land` does: right way up in ROTATE it adds `10 * level` to the score and leaves the grid alone, otherwise its glyph is written at its settle cell (`SettledInGrid`) and the score is unchanged |
| Browser.Game.FallAll | static/game.js:765-921 | every block of the snapshot took its step: a settled one stays put, a falling one lands or is exactly `step` lower; no block lands before the first one that does, and that block and every falling block before it end where `Drop` on the frame's starting grid puts them; when `Drop` lands no falling block, nothing lands and the game and grid are unchanged; when the snapshot is one block and it lands, the upright ROTATE block scores `10 * level` with the grid unchanged and any other block is written at its settle cell with the score unchanged |
| Browser.Game.Descend | static/game.js:765-930 | every block took its step, then a full top row ends the game; when no block lands, the score and the grid stay unless the game ends; a single landing block scores or is written into the grid as in `FallAll`, unless the game ends and empties the grid |
| Browser.Game.PlayFrame | static/game.js:723-930 | the arrows move the block and are released, then every block takes the fast step exactly when down is held |
| Browser.Game.CheckTop | static/game.js:923-930 | a glyph in the top row ends the game: no mode, no blocks, empty grid |
| Browser.Game.Controls | static/game.js:723-750 | held arrow keys move the block left, then right, and are released |
| Browser.Game.ArrowMove | static/game.js:726-737 | either name of the key moves the block when accepted and is released |
| Browser.Game.Expire | static/game.js:933-946 | a success pause that has run out starts a fresh round; otherwise nothing changes |
| Browser.Game.Update | static/game.js:716-946 | nothing moves during the PINYIN pause; otherwise every block takes the frame's step (settled ones stay, falling ones land or move exactly one step down), a frame where nothing lands leaves score and grid alone unless the game ends, a single landing block scores `10 * level` right way up in ROTATE with the grid unchanged and is otherwise written at its settle cell with no score (unless the game ends), the game ends on a full top row, and an expired pause starts the next round |
| Browser.Game.SpawnCharacter | static/game.js:630-671 | the block, character, pinyin and used set are exactly the `PickChar` outcome, and an empty level spawns nothing |
| Browser.Game.SpawnIdiom | static/game.js:672-713 | the target and blocks are exactly the splice deal, and an empty level spawns nothing |
| Browser.Game.PlaceIdiom | static/game.js:686-712 | the dealt idiom becomes the target with its blocks |
| Browser.Game.IdiomBlocks | static/game.js:708-712 | new blocks carry the first four shuffled characters on their columns at the top |
| Browser.Game.SpawnRound | static/game.js:618-714 | a fresh round with the invariant kept |
| Browser.Game.SpawnBlocks | static/game.js:618-714 | typing and clicking reset, at most one or four new unsettled blocks inside the field |
| Browser.Game.ClearRound | static/game.js:619-627 | the round's state is reset |
| Prototype.WindowLayout | vibe/src/main.py:255-283 | a 192-pixel sidebar, a 768 by 600 playfield, 60-pixel cells, 12 columns by 10 rows |
| Prototype.TypeEvent | vibe/src/main.py:649-655 | only lower-case letters enter the answer; Backspace drops one character, and any other key appends at most one |
| Prototype.BackspaceUndoes | vibe/src/main.py:650-655 | Backspace takes back the letter just typed |
| Prototype.NonLetterKeepsAnswer | vibe/src/main.py:652-656 | a key up to 127 without a letter leaves the answer, which is then checked again |
| Prototype.FrameStep | vibe/src/main.py:673-676 | the step is 2, or 8 with the down arrow held, and exactly half of that in IDIOM |
| Prototype.Game.FewBlocks | vibe/src/main.py:468-526 | at most one block falls in ROTATE/PINYIN, at most four otherwise, and at most four are clicked |
| Prototype.Game.constructor | vibe/src/main.py:250-320 | no mode, score 0, level 1, goal 1, an empty 12 by 10 grid, invariant established |
| Prototype.Game.SetTargetRight | vibe/src/main.py:396-403 | the goal is `TargetRight` of the character dataset in ROTATE/PINYIN and of the idiom dataset otherwise |
| Prototype.Game.StartMode | vibe/src/main.py:368-394 | mode set, level 1, score 0, right_count 0, grid and used_chars emptied, goal of level 1, a fresh round |
| Prototype.Game.NewSession | vibe/src/main.py:369-372 | mode, level 1, score 0, right_count 0 |
| Prototype.Game.NextLevel | vibe/src/main.py:405-421 | below the mode's last level: one level up, progress, grid and used_chars reset, new goal, a fresh round; at the last level nothing changes |
| Prototype.Game.LevelUp | vibe/src/main.py:411-412 | level plus one, right_count 0 |
| Prototype.Game.AwardPoints | vibe/src/main.py:423-464 | score grows by `5 * level` in ROTATE/PINYIN and by 10 in IDIOM; reaching the goal below the last level starts the next level with a fresh round, otherwise right_count grows by one, the character joins used_chars and the round is kept |
| Prototype.Game.Tally | vibe/src/main.py:424-432 | the points, one more right answer, and the character marked used |
| Prototype.Game.Steer | vibe/src/main.py:636-648 | Space in ROTATE turns the falling block a quarter; the arrows move it one cell when `can_move` accepts |
| Prototype.Game.OnKey | vibe/src/main.py:635-659 | the block is steered; in PINYIN any key up to 127 that leaves the answer complete scores and starts the pause, and any other key scores nothing |
| Prototype.Game.TypeAnswer | vibe/src/main.py:649-659 | the answer becomes `TypeEvent` of the key; scoring exactly when a key other than Backspace leaves it complete |
| Prototype.Game.CheckAnswer | vibe/src/main.py:656-659 | scores and starts the pause exactly when the typed text equals the stripped pinyin |
| Prototype.Game.FirstPickable | vibe/src/main.py:570-573 | the first falling, unclicked block under the point, and none before it |
| Prototype.Game.FirstHit | vibe/src/main.py:570-573 | the loop finds exactly the first pickable block |
| Prototype.Game.RecheckClicks | vibe/src/main.py:583-593 | true exactly when the clicked blocks spell the whole idiom |
| Prototype.Game.LayOut | vibe/src/main.py:596-607 | the completed idiom is a settled row one cell below the top, in click order, inside the walls |
| Prototype.Game.Arrange | vibe/src/main.py:596-607 | the same, with every laid-out block inside the playfield |
| Prototype.Game.SettleClicked | vibe/src/main.py:596-598 | every clicked block is settled |
| Prototype.Game.PlaceClicked | vibe/src/main.py:600-607 | block i of the sequence sits at `group_x + i * size`, `group_y` |
| Prototype.Game.Release | vibe/src/main.py:624-631 | the sequence empties, the index is 0, and the clicked blocks still on the field fall again; no block leaves the field |
| Prototype.Game.Pick | vibe/src/main.py:574-633 | the right character extends the sequence and completes it with one award; a wrong one releases the sequence |
| Prototype.Game.Advance | vibe/src/main.py:574-580 | the block joins the sequence; the last character lays out and scores |
| Prototype.Game.Complete | vibe/src/main.py:580-610 | the recheck passes, the idiom is laid out, then awarded once, and the pause starts |
| Prototype.Game.Reward | vibe/src/main.py:609-610 | the award, then the pause |
| Prototype.Game.OnMouse | vibe/src/main.py:551-633 | a mode button starts its mode; any other press is an IDIOM click |
| Prototype.Game.Click | vibe/src/main.py:562-633 | outside an open IDIOM round, or off every pickable block, nothing changes; otherwise the first pickable block is handled |
| Prototype.Game.Drop | vibe/src/main.py:691-704 | wherever the block ends this frame, it stays inside the playfield |
| Prototype.Game.DropAbove | vibe/src/main.py:729-789 | the same for a step that stays above the floor |
| Prototype.Game.RowBelowInside | vibe/src/main.py:740-750 | the snap onto the row below keeps the block inside the playfield |
| Prototype.Game.FallStaysAboveFloor | vibe/src/main.py:696-700 | a block that does not land moved exactly one step and ends above the floor |
| Prototype.Game.NextY | vibe/src/main.py:691-789 | the position code computes exactly `Drop` |
| Prototype.Game.Land | vibe/src/main.py:700-820 | an upright ROTATE block scores (possibly starting the next level) and is not written, with a fresh round; any other block is settled in the grid with no score, and the next round starts in ROTATE/PINYIN, or in IDIOM once the field is empty |
| Prototype.Game.ScoreUpright | vibe/src/main.py:706-712 | the award and a fresh round; the grid is emptied only by a level-up |
| Prototype.Game.Bury | vibe/src/main.py:713-817 | settled in the grid with no score; the respawn rule of the mode |
| Prototype.Game.StepBlock | vibe/src/main.py:678-820 | a settled block is skipped and nothing changes; a falling one moves to `Drop` and lands exactly when `Drop` says so, and when it does not land the game and grid are unchanged; a block that lands does what `Land` does to the game it found (`ScoredFrom`, `WroteFrom`): right way up in ROTATE it adds the points of `award_points` and moves to the next level at the goal, the grid unchanged or emptied by that level-up; otherwise its glyph is written at its settle cell with score and level unchanged; outside ROTATE the score and level never change |
| Prototype.Game.FallAll | vibe/src/main.py:678-820 | over the live list, the block right after one that lands is skipped (the list shrank under the loop index) and every other block took its step: a settled one stays put, a falling one lands or is exactly `step` lower; no block lands before the first one that does, and that block and every falling block before it end where `Drop` on the starting grid puts them; when `Drop` lands no falling block, nothing lands and score, level, blocks and grid contents are unchanged; in ROTATE and PINYIN a landing block scores and is written as `StepBlock` says; outside ROTATE the score and level never change |
| Prototype.Game.Descend | vibe/src/main.py:678-827 | every block took its turn as in `FallAll`, then a full top row ends the game; when no block lands, the score and the grid contents stay unless the game ends; in ROTATE and PINYIN a landing block scores and is written as `StepBlock` says, unless the game ends and empties the grid; outside ROTATE the score and level never change |
| Prototype.Game.CheckTop | vibe/src/main.py:822-827 | a glyph in the top row ends the game: no mode, no blocks, empty grid |
| Prototype.Game.Expire | vibe/src/main.py:829-846 | a success pause that has run out starts a fresh round; otherwise nothing changes |
| Prototype.Game.Update | vibe/src/main.py:663-846 | nothing moves during the PINYIN pause; otherwise every block takes its turn of the frame's step, skipping the one after a landing block, a frame where nothing lands leaves score and grid contents alone unless the game ends, in ROTATE and PINYIN a landing block scores and is written as `StepBlock` says (unless the game ends), outside ROTATE the score and level never change, the game ends on a full top row, and an expired pause starts the next round |
| Prototype.Game.SpawnCharacter | vibe/src/main.py:480-504 | the block, character, pinyin and used set are exactly the `PickChar` outcome, and an empty level spawns nothing |
| Prototype.Game.SpawnIdiom | vibe/src/main.py:505-526 | the target and blocks are exactly the sampled deal, and an empty level spawns nothing |
| Prototype.Game.PlaceIdiom | vibe/src/main.py:511-526 | the dealt idiom becomes the target with its blocks |
| Prototype.Game.IdiomBlocks | vibe/src/main.py:523-526 | new blocks carry `chars[:4]` on their columns at the top |
| Prototype.Game.SpawnRound | vibe/src/main.py:468-526 | a fresh round with the invariant kept |
| Prototype.Game.SpawnBlocks | vibe/src/main.py:468-526 | typing and clicking reset, at most one or four new unsettled blocks inside the field |
| Prototype.Game.ClearRound | vibe/src/main.py:469-477 | the round's state is reset |

## Left out

- Level loading is not modelled: `loadLevelData`, `find_project_root`, `load_character_levels`, `load_idiom_levels` and the Flask app. The datasets are constructor arguments. The prototype's loaders always return 14 character levels and 6 idiom levels, so its constructor requires that.
- The data-loaded guard of `startMode` and its `setTimeout` retry are asynchronous polling. The model starts from the state after loading.
- Drawing, fonts, sound, messages, instructions, the `effects` fireworks and the `settledPinyin` map are not modelled. They do not affect the game state.
- `vy` is not modelled. The browser never reads it. The prototype overwrites it with the frame speed before reading it.
- Event wiring, the frame loops and `resizeCanvas` are not modelled. Each handler is a method called directly.
- `Math.random`, `random.choice`, `random.randint`, `random.shuffle` and `random.sample` are oracle draws. Both libraries' shuffles take the Fisher–Yates form. `random.sample` on a small population takes the form of drawing from a shrinking pool.
- Clock reads are a `now` parameter, and one frame reads one time. The source reads the clock again inside a frame.
- Browser.FrameStep: the browser's fractional steps (`× 0.7`, `× 0.5`) are truncated to whole pixels, so 1.4 and 5.6 become 1 and 5, and y stays an integer.
- ToneMarks.Lower: lower-cases ASCII and the tone-marked vowels only. Other Unicode case mappings of `toLowerCase` and `str.lower` are not modelled, and neither are the UTF-16 code units that `split('')` yields.
- Prototype.TypeEvent: `isalpha` is taken as ASCII letters only. The model does not capture a key code up to 127 whose text is a non-ASCII letter.
- Browser.Game.FallAll and Prototype.Game.FallAll: blocks after the first landing one are stated only to land or move exactly one step. They are not tied to `Drop`, because that landing has changed the grid their `Drop` reads.
- Browser.Game.FallAll: the score and grid effect of a landing is stated only when the snapshot holds one block (always so in ROTATE and PINYIN). In IDIOM with several blocks, landings follow one another on changing grids, and their combined effect is not stated block by block.
- Prototype.Game.FallAll: the score and grid effect of a landing is stated in ROTATE and PINYIN, whose live list holds at most one block (the frame step of that block is `FallOne`). For IDIOM's several blocks (`FallLoop`), the first landing's position and the unchanged score and level are stated, but not the grid after several landings.
- Browser.Game.SpawnRound and Prototype.Game.SpawnRound: state only the fresh-round facts. The exact blocks drawn are stated by SpawnCharacter and SpawnIdiom, which they call.
- Dataset order (`Object.entries`, dict order) is the order of the entry sequence.
- The prototype's `Block` is a dataclass, so `in` and `remove` compare by value. The model compares by identity. Blocks of one round have distinct columns.
- The three landing sites of `update` are one `Land` method. In ROTATE/PINYIN, the sites that do not filter the block out spawn a round that clears the field anyway.
- Some source branches are unreachable and are not modelled as behaviour:
  - The IDIOM skip of fully clicked blocks in `update`: every clicked block is settled there, so the loop skips them first.
  - The failing re-check after the last click.
  - The prototype's "already clicked" branch.
  - The "other modes" landing branch.
- The browser constructor requires a playfield of at least four columns. The idiom spawn indexes four drawn columns and needs this.
- The prototype's `on_mouse` buttons are given as a parameter, the mode button under the point if any. The sidebar button layout is drawing code.
