# Ring Sort: the puzzle core in Dafny

Ring Sort is a colour-sorting puzzle. A level is a row of pegs ("cylinders"),
each a stack of coloured rings with the top ring last. The player taps a
non-empty peg to select it, then taps another peg to move the top ring there.
The move is accepted only if the target has room (fewer rings than the level's
capacity) and is empty or shows the same colour on top. A level is solved when
every peg is empty or full of a single colour. Some levels lock a peg until
some peg is completed. Some levels are "mystery" levels, a flag the renderer
uses to hide colours.

This project models the two sequential components that make up the puzzle:

- **The move engine**, the `GameState` class of `game.js`: `loadLevel`,
  `interact` (the tap state machine), `undo` and `isValidMove`. It sits in
  `engine.dfy` (module `Engine`) on top of the peg and board rules in
  `board.dfy` (module `Board`). The fields of a game are gathered in a
  `Snapshot` value. `Load`, `Tap`, `UndoLast` and `ValidMove` give the
  operations as functions of a snapshot. The class `Engine.GameState` keeps
  the same fields and updates them in place, and each method is proved to
  follow its function. The class invariant `Valid()` says three things:
  - a selected peg is never empty and never locked;
  - `moves` equals the length of the history;
  - the board is what the recorded history produces when replayed from the
    board as loaded.
- **Two rules of the `App` class** that decide something about the puzzle,
  in `app_rules.dfy` (module `AppRules`):
  - the star rating and progress record written when a level is finished;
  - the hint search for the first valid move, and how the hint is played.
- **The level generator** of `levels.js`, in `levels.dfy` (module `Levels`):
  - the palette `COLOR_KEYS`;
  - the 60-row difficulty table `LEVEL_CONFIGS`;
  - `getConfig`, `selectColors` and `generateLevel`.

  `generateLevel` builds the solved board. It then scrambles the board with
  random moves that obey the capacity but not the colour rule. Finally it sets
  the level's par from the number of scramble moves actually played. On every
  level of the table each scramble round finds a move, so that number is the
  full scramble budget.

Randomness is handled in two ways:
- The palette shuffle of `selectColors` is an input: `shuffled` may be any
  ordering of the palette.
- Each scramble step's reversal coin and the choice of move are
  nondeterministic (`:|`).

So everything proved about the generator holds for every outcome of the dice.

## Model

| member | source | states |
|---|---|---|
| Board.Pop | game.js:318 | popping a non-empty peg leaves the rest, which with the old top appended gives back the peg; an empty peg stays empty |
| Board.Transfer | game.js:295-296 | moving a ring takes exactly the source's top off the source and puts it on the target; no other peg changes and the peg count is kept |
| Board.IsPegComplete | game.js:302 | a peg is complete iff it has exactly capacity rings and is nothing but copies of its bottom ring |
| Board.IsLevelComplete | game.js:301 | in a complete level every peg holds either no ring or exactly capacity rings, so the board is within a non-negative capacity |
| Board.RingsPop | game.js:295 | popping a peg removes exactly its top ring from the board's colour multiset |
| Board.RingsPush | game.js:296 | pushing a ring on a peg adds exactly that ring to the board's colour multiset |
| Board.TransferConserves | game.js:295-296 | a move neither creates nor destroys rings: the multiset of colours on the board, and so the ring count, is unchanged |
| Board.TransferWithinCapacity | game.js:291-296 | a move onto a peg with room keeps every peg within capacity |
| Engine.MinMovesOrDefault | game.js:256-257 | the par is the given value when it is at least 1, and 20 when it is missing or below 1 |
| Engine.CapacityOrDefault | game.js:259 | the capacity is the given ringsPerColor when present and non-zero, else 4 |
| Engine.Load | game.js:253-265 | without data or without a board, nothing changes; otherwise the new game has the given board, no selection, 0 moves, an empty history, the defaulted par and capacity, the mystery flag and the given locks (none if absent), and it satisfies the game invariant for that board |
| Engine.Tap | game.js:266-314 | a tap keeps the selection on an existing non-empty peg, and keeps it unlocked |
| Engine.UndoLast | game.js:315-324 | with an empty history undo returns null and changes nothing; otherwise it returns the last record, which is removed from the history, decrements moves and clears the selection; locks, capacity, par and mystery flag are never restored or changed |
| Engine.ValidMove | game.js:325-341 | a move is valid iff both pegs exist, neither is locked, the source is non-empty and the move obeys the move rule (different pegs, room on the target, target empty or same colour on top) |
| Engine.ReplayPreserves | game.js:295-298 | any sequence of accepted moves keeps the peg count, the multiset of colours and the capacity bound of the board it starts from |
| Engine.TapConserves | game.js:284-299 | no tap creates or destroys rings or pegs or breaks the capacity bound, and no tap changes the capacity, par or mystery flag |
| Engine.ConsistentConserves | game.js:253-324 | every state a game reaches from a loaded board has that board's peg count and colour multiset, and stays within capacity if the loaded board was |
| Engine.ReplayAppend | game.js:297-298 | recording one more accepted move extends the replayed board by exactly that move |
| Engine.TapKeepsConsistent | game.js:266-314 | a tap keeps the game invariant: selection non-empty and unlocked, moves equal to history length, and board equal to the replay of the history |
| Engine.TapGuards | game.js:267-282 | the four guards in priority order: an out-of-range tap returns null, a locked peg returns 'locked', with no selection a non-empty peg is selected and an empty one returns null, and tapping the selected peg deselects it; only the selection ever changes |
| Engine.SelectThenDeselect | game.js:271-282 | selecting a peg and tapping it again restores the state exactly |
| Engine.MoveAcceptedIff | game.js:284-293 | with a peg selected, a tap on another unlocked peg is accepted iff the target has room and is empty or has the same top colour; otherwise the result is 'wrong' and the state, selection included, is unchanged |
| Engine.ValidMoveAgreesWithTap | game.js:325-341 | isValidMove(from, to) holds iff interact(to), with from selected, performs a move |
| Engine.MoveEffect | game.js:295-299 | an accepted move pops exactly the source's top ring and pushes it on the target, leaves every other peg alone, increments moves by one, appends {from, to, ring} to the history and clears the selection |
| Engine.MoveClassification | game.js:301-313 | the tag is levelComplete iff every peg is empty or full of one colour, else complete iff the target peg is full of one colour, else drop; unlocked holds, and all locks are cleared, iff the target completed while locks existed |
| Engine.UndoAfterMove | game.js:315-324 | undo right after an accepted move returns that move and restores the board, moves and history exactly; only the locks stay as the move left them |
| Engine.UndoTransfer | game.js:317-319 | popping the target and pushing the recorded ring on the source reverses any accepted move |
| Engine.UndoKeepsConsistent | game.js:315-324 | undo keeps the game invariant, so undo reverses moves to any depth |
| Engine.GameState.constructor | game.js:243-252 | a new game has no pegs, no selection, 0 moves, par 0, capacity 4, no locks and no history |
| Engine.GameState.LoadLevel | game.js:253-265 | the fields become Load of the old fields, and the invariant holds for the loaded board; the board as last loaded changes only when a board is given |
| Engine.GameState.Interact | game.js:266-314 | the fields and the result are those of Tap on the old fields, and the invariant is kept |
| Engine.GameState.MoveSelectedTo | game.js:284-313 | the move branch of interact, updating the pegs in place, agrees with Tap |
| Engine.GameState.Undo | game.js:315-324 | the fields and the result are those of UndoLast on the old fields, and the invariant is kept |
| AppRules.Stars | game.js:987-995 | 1 to 3 stars: 3 iff moves <= par, at least 2 iff moves <= par + 3 |
| AppRules.StarsMonotone | game.js:992-994 | fewer moves never earn fewer stars |
| AppRules.RecordCompletion | game.js:996-997 | the stored best for the level is the larger of the old best (0 if none) and the new stars; other levels are untouched; unlocked becomes the larger of its old value and the next level, so neither ever decreases |
| AppRules.RecordCompletionIdempotent | game.js:996-997 | recording the same result twice is the same as recording it once |
| AppRules.FindHint | game.js:831-840 | the hint (the same loop as performHint at game.js:1071-1080) is a valid move from a non-empty unlocked peg and is the first in loop order (lowest source, then lowest target); there is no hint iff no valid move exists |
| AppRules.ReplayHint | game.js:845-846 | playing a hint is two taps, source then target |
| AppRules.ReplayHintFromIdle | game.js:843-846 | with no peg selected, playing a valid hint performs exactly that move |
| AppRules.ReplayHintCanMissMove | game.js:843-846 | with the hinted source already selected, playing the hint deselects it and taps an empty peg, so no move happens |
| AppRules.ReplayHintFixed | game.js:843-846 | with the selection cleared first, playing a valid hint always performs exactly that move |
| Levels.LevelConfig | levels.js:20-86 | every row of the table has cylinders = colors + emptyCylinders, 2 to 8 colours, at least 2 empty pegs, 4 to 6 rings per colour, and at most one locked peg, which exists |
| Levels.GetConfig | levels.js:93-96 | level n (n >= 1) gets row n - 1, and every level from 60 on gets the last row |
| Levels.MysteryLevels | levels.js:20-86 | mystery levels are 10, 15, ..., 55 and every level from 60 on |
| Levels.LockedLevels | levels.js:20-86 | exactly levels 5, 8, 12, 17, 22, 27, 31, 37, 42, 47 and 52 lock a peg (peg 2 on level 5, peg 0 on level 8) |
| Levels.PaletteDistinct | levels.js:7-18 | the eight palette colours are distinct |
| Levels.PermutationDistinct | levels.js:99 | any reordering of distinct colours has the same length, distinct entries and only those colours |
| Levels.ShuffleDistinct | levels.js:99 | any shuffle of the palette lists the eight palette colours, each once |
| Levels.SelectColors | levels.js:98-101 | the selection is the first count colours of the shuffle, or all eight if count exceeds the palette |
| Levels.SelectedColorsDistinct | levels.js:98-101 | the selected colours are pairwise distinct and drawn from the palette |
| Levels.RepeatCount | levels.js:112 | a peg of n rings of colour c holds n rings of c and no other colour |
| Levels.FullPegs | levels.js:110-114 | one peg per selected colour, peg i holding ringsPerColor rings of the i-th colour |
| Levels.SolvedBoard | levels.js:107-115 | the solved board has `cylinders` pegs: the full single-colour pegs of the selected colours, then empty pegs |
| Levels.EmptyPegsRings | levels.js:115 | empty pegs hold no rings |
| Levels.FullPegsRings | levels.js:110-114 | in the full pegs each selected colour occurs ringsPerColor times and no other colour occurs |
| Levels.FullPegsSize | levels.js:110-114 | the full pegs hold colors * ringsPerColor rings |
| Levels.SolvedBoardRings | levels.js:107-115 | the solved board holds each selected colour ringsPerColor times, no other colour, and colors * ringsPerColor rings in all |
| Levels.ScrambleMoves | levels.js:120-122 | the scramble budget is 25 + (ringsPerColor - 4) * 10 plus floor(2.5 * levelNum) |
| Levels.ScrambleIgnoresColour | levels.js:137-148 | a scramble candidate may put a ring on a different colour, which the move rule forbids |
| Levels.ScrambledPreserves | levels.js:150-159 | any run of scramble moves keeps the peg count, the multiset of colours and the capacity bound |
| Levels.ScrambleCandidates | levels.js:129-149 | the candidate list holds exactly the moves from a non-empty source other than the last target (unless the reversal coin allows it) to a different peg that is not full |
| Levels.ParMoves | levels.js:167 | the par is max(5, ceil(actualMoves / 2)) |
| Levels.BuildSolvedState | levels.js:107-115 | the nested loops build exactly the solved board |
| Levels.SolvedBoardRoomy | levels.js:107-115 | a solved board of at least 2 colours with at least 2 empty pegs holds at least two pegs' worth of rings and has room for two pegs' worth more |
| Levels.CandidateExists | levels.js:128-149 | on a board within capacity with two pegs' worth of rings and of room, every scramble round has a candidate, whatever the last target and the reversal coin |
| Levels.Scramble | levels.js:124-160 | for every outcome of the dice, the loop runs `scrambleMoves` rounds (none for a negative budget); each round either plays a candidate for the board, the previous target and that round's coin, or has no candidate and passes; the board is the result of the played moves from the solved board and actualMoves is their number; the board keeps the peg count, the multiset of colours and the capacity bound; on a board with two pegs' worth of rings and of room every round plays a move |
| Levels.GenerateLevel | levels.js:103-169 | for every outcome of the dice, the level has its table row and the selected colours; it has `cylinders` pegs within capacity; each selected colour occurs exactly ringsPerColor times and no other colour occurs; the board is the solved board after ScrambleMoves(levelNum, ringsPerColor) rounds, every one of which played a candidate move; so the par is max(5, ceil(ScrambleMoves / 2)), fixed by the level number alone |
| Levels.ToLevelData | game.js:1019-1020 | the data handed to loadLevel carries the level's board, par, ringsPerColor and mystery flag, and its locks, where an absent list reads as no locks |
| Levels.LoadGeneratedLevel | levels.js:162-168 | loading a generated level gives its board, its par (the fallback of 20 never fires), capacity ringsPerColor, its locks (each an existing peg) and colors * ringsPerColor rings within capacity |

## Left out

- The rest of `game.js` is not part of this model: `LanguageManager` (text and locale), `AudioManager` (Web Audio), `Game3D` (three.js rendering, raycasting, tweens) and the rest of `App`. That includes DOM events, screens, ads, `localStorage` persistence, animations and the hint counter.
- The hint handlers also call an undefined `completeLevel` and use an undefined `hints` property. Only their search loop and their two `interact` calls are modelled.
- `yandex-sdk.js`, `cloud-save.js` and `sw.js` are platform plumbing (SDK calls, cloud and local storage, service-worker caching). They are not part of this model.
- `RING_COLORS`'s hex colour values and `getColorProps` only concern rendering. Only the palette keys are modelled.
- `Math.random` is not modelled as floating point:
  - the palette shuffle of `selectColors` is an input, any ordering of the palette;
  - the 10% reversal coin and the uniform pick among candidates are nondeterministic choices.

  Probabilities are therefore not modelled, only what holds for every outcome.
- Levels.LevelConfig: `LEVEL_CONFIGS` is modelled as a function from row index to row, with `LEVEL_COUNT` = 60 rows, rather than as an array constant.
- Levels.GetConfig: requires levelNum >= 1, which every caller of `start` passes. For lower numbers the source reads an undefined row and spreads it into an empty config; `generateLevel` then silently builds a level with no pegs and par 5, which `loadLevel` accepts. That empty level is not modelled.
- Engine.Load: `data.config` is always present in the model. The source would throw when it is missing while `data.cylinders` is present.
- Engine.Load: `minMoves`, `ringsPerColor` and peg indices are integers. JavaScript numbers may also be fractional, which the source never produces for them.
- Engine.Load: the source copies each peg so later moves cannot alias the caller's arrays. The model works on values, so there is no aliasing to rule out.
- Engine.GameState methods require `Valid()`, the class invariant. The constructor establishes it and every method keeps it, so every state the source can reach satisfies it.

## Findings

| source | as written | input that shows it | evidently intended | confidence | as-written member | corrected member |
|---|---|---|---|---|---|---|
| game.js:843-846 | the hint is played as `interact(from); interact(to)` without clearing an existing selection (the same in performHint at game.js:1089-1091) | board [["red"], []] with peg 0 selected; the hint is (0, 1), the first tap deselects peg 0, the second taps the empty peg 1 and returns null, so no ring moves while the animation moves one | the hinted move is played whatever was selected: clear the selection, then tap source and target | not executed | AppRules.ReplayHintCanMissMove | AppRules.ReplayHintFixed |
