# Word game: guess evaluation and game state machine

A Dafny model of the game logic of a Wordle-style web service (`api.py`).
A player creates a game with a random five-letter secret word and has six
guesses. Each guess gets two five-character patterns back. `correct_spots`
shows the letters in the right place. `incorrect_spots` shows the letters
that occur in the secret elsewhere. `?` means "nothing here".

The model has two modules.

- `Evaluator` (`evaluator.dfy`) models `_check_string`. The guess is
  lower-cased, and an exact guess is answered at once. Otherwise a
  letter-count dictionary of the secret is built, exact matches are reserved
  in a first pass, and wrong-position letters are marked in a second pass
  while their count is still positive. `CheckString` is that loop-and-map
  algorithm. It is proved equal to `Evaluate`, which runs the same passes as
  the folds `Tally`, `ExactPass` and `WrongPass`. The lemmas prove that
  `Evaluate` equals a position-by-position rule (`ExactSpots`,
  `WrongSpots`). They also prove that a letter's count never goes negative,
  that the two patterns never mark the same position, and that no letter is
  marked more often than it occurs in the secret.
- `Games` (`games.dfy`) models the `games`, `game_states` and `game_history`
  tables as fields of the class `Service`. The handlers `create_game` and
  `check_guess` update them, and `get_game_state` only reads them. `SubmitGuess`
  makes the checks of `check_guess` in the code's order. It then appends one
  history row and writes the new state. `GameOk` is the invariant of a single
  game: one history row per guess used, a won game's last guess is the
  secret, a lost game has no guesses left. `Valid` lifts it to all tables
  and adds that every secret word is in the word list, and every handler
  keeps it.

The handlers do not require `Valid()`: like the SQL statements they
replace, they work on whatever the tables hold. That is why the 404 for a
game row missing from `games` (api.py:408-409) and the "No guesses left"
rejection (api.py:458-459) are modelled as they are written, although a
`Valid()` store never reaches them (`SubmitGuess` states this).
`SubmitGuess` and `GetGameState` do require `WellFormed()`: every secret
word and every stored guess is five characters long, which the source
assumes when it indexes them. `CreateGame` requires a five-character secret
that is in the word list, and keeps `WellFormed()`. In the source the secret
is drawn from share/correct.json (api.py:96-100), and share/populate.py loads
the same file into `valid_words`. So in a valid store a game in progress
is won by guessing its secret, which `SubmitGuess` states.

Behaviour kept exactly as the code has it:

- `check_guess` checks the length before it reads any state. For an unknown
  game id the status lookup gives no value. That takes the "game is over"
  branch and answers with an empty status and an empty count
  (`Frozen(None, None)`), not with the 404 further down.
- The won test (api.py:438) compares the guess as submitted with the
  secret, while `_check_string` lower-cases the guess (api.py:105). A guess
  in capitals gets every position as a correct spot and still does not win
  (`CapitalsDoNotWin`). This is reached only when the word list holds the
  capitalised word, because the word check (api.py:389-396) comes first.
  `WonAgreesWithFeedback` shows that the two agree for lower-case guesses.
- `get_game_state` answers 404 for a game that has no history yet. It
  re-evaluates every stored guess rather than storing the patterns.

## Model

| member | source | states |
|---|---|---|
| `Evaluator.Get` | api.py:117 | `dict.get(letter, 0)` on the count dictionary. It has no contract of its own: its meaning is given by `TallyCounts`, `ExactBudget` and `WrongBudget` |
| `Evaluator.Tally` | api.py:115-117 | the loop that builds `goal_cnt`. It has no contract of its own: `TallyCounts` proves it holds every letter's number of occurrences |
| `Evaluator.Evaluate` | api.py:103-135 | the whole of `_check_string` as a function. It has no contract of its own: see `EvaluateMatchesRule`, `PatternShape` and `LetterBudget`, and `CheckString`, which is proved equal to it |
| `Evaluator.LowerStr` | api.py:105 | the guess keeps its length and each character is lower-cased |
| `Evaluator.ReplaceIdx` | api.py:111-112 | `replace_idx` keeps the length, puts the letter at the index and leaves every other position unchanged |
| `Evaluator.ReplaceBlankCounts` | api.py:126 | writing a letter over a `?` adds one occurrence of that letter and changes no other letter's count |
| `Evaluator.TallyCounts` | api.py:114-117 | the dictionary `goal_cnt` maps every letter to its number of occurrences in the secret (0 when absent) |
| `Evaluator.ExactPass` | api.py:119-127 | the first pass keeps a five-character pattern |
| `Evaluator.WrongPass` | api.py:120-133 | the second pass keeps a five-character pattern |
| `Evaluator.ExactPattern` | api.py:119-127 | after the first pass has seen n positions, the pattern holds the guess letter exactly at the exact matches among them, and `?` elsewhere |
| `Evaluator.ExactBudget` | api.py:124-127 | during the first pass a letter's count is its occurrences less the exact matches reserved. It is never below the occurrences still to be scanned, so it never goes negative and an exact match always decrements a positive count |
| `Evaluator.ExactMatchIsCounted` | api.py:124-127 | at an exact match the letter is still a key of `goal_cnt` with a positive count, so `goal_cnt[guess[i]] -= 1` never raises `KeyError` and never goes below zero |
| `Evaluator.ExactCounts` | api.py:124-127 | the first pass marks each letter once per exact match |
| `Evaluator.SpareIsNatural` | api.py:115-127 | after the first pass every count equals the letter's occurrences not taken by exact matches, and is non-negative |
| `Evaluator.WrongBudget` | api.py:130-133 | during the second pass each letter's count has been spent on as many of its misplaced occurrences as it could pay for, and never goes negative |
| `Evaluator.WrongPattern` | api.py:130-133 | after the second pass has seen n positions, the pattern marks exactly the positions that are not exact matches and whose letter still had a positive count |
| `Evaluator.WrongCounts` | api.py:130-133 | the second pass marks a letter min(misplaced occurrences, occurrences left after exact matches) times |
| `Evaluator.FirstPassIsRule` | api.py:122-127 | the complete first pass equals the rule "guess letter where it equals the secret letter, `?` elsewhere" |
| `Evaluator.SecondPassIsRule` | api.py:129-133 | the complete second pass equals the rule "mark a misplaced letter while its exact matches plus its earlier misplaced occurrences stay below its count in the secret" |
| `Evaluator.ShortcutAgrees` | api.py:105-108 | the early return `(goal, "?????")` for a guess that equals the secret after lower-casing is what the two passes would return |
| `Evaluator.EvaluateMatchesRule` | api.py:103-135 | `_check_string` returns exactly the two rule patterns for the lower-cased guess, on both the early-return path and the two-pass path |
| `Evaluator.AllCorrectIsEqual` | api.py:119-127 | for a secret without `?`, the correct-spots pattern equals the secret if and only if the guess equals the secret |
| `Evaluator.PatternShape` | api.py:103-135 | both patterns have length 5, and each position holds `?` or the lower-cased guess letter. A correct spot is marked iff the lower-cased guess letter equals the secret letter. A wrong spot is never an exact match, and no position is marked in both patterns |
| `Evaluator.LetterBudget` | api.py:114-133 | for every letter, its marks in both patterns together never exceed its occurrences in the secret. The correct-spot marks are its exact matches, and the wrong-spot marks are min(misplaced occurrences, occurrences left over) |
| `Evaluator.HelloWorld` | api.py:122-123 | the commented duplicate case: guess "hello" against "world" gives `("???l?", "????o")`, so the first `l` is not counted |
| `Evaluator.CheckString` | api.py:103-135 | the dictionary-and-two-loops algorithm returns exactly `Evaluate(guess, goal)` |
| `Games.Initial` | api.py:285-289 | the state row of a new game. It has no contract of its own: see `InitialOk` and `SixMissesLose` |
| `Games.Conclude` | api.py:437-442 | the status written back after an accepted guess. It has no contract of its own: see `WonAgreesWithFeedback`, `GuessingTheSecretWins` and `MissesUseUpGuesses` |
| `Games.Advance` | api.py:418-442 | the state after an accepted guess. It has no contract of its own: see `AdvanceOk`, `AcceptKeepsTables` and `Service.SubmitGuess` |
| `Games.Feedback` | api.py:338-345 | one history entry, with the stored guess re-evaluated against the secret. It has no contract of its own: see `ReplayShowsEachRow` |
| `Games.Replay` | api.py:335-352 | the history `get_game_state` builds for a game in progress has one entry per history row. `ReplayShowsEachRow` and `ReplayStep` say which entry |
| `Games.Run` | api.py:381-442 | the state a game reaches through repeated accepted `check_guess` calls, each with a five-letter valid word. It has no contract of its own: see `GuessingTheSecretWins`, `MissesUseUpGuesses` and `SixMissesLose`; `Service.SubmitGuess` states that each call with a listed five-letter word on a known game is one step of it |
| `Games.RunOneGuess` | api.py:381-442 | one submitted guess leaves a finished game, or one without guesses left, as it is, and moves a game in progress with guesses left by `Advance` |
| `Games.InitialOk` | api.py:285-289 | a new game, with 6 guesses, "In Progress" and no history, satisfies the game invariant |
| `Games.AdvanceOk` | api.py:411-452 | an accepted guess with guesses left on a game in progress keeps the invariant: remaining drops by one, one history row `(guess, r-1)` is added, won iff the guess is the secret, lost iff it is not and no guesses remain |
| `Games.GuessingTheSecretWins` | api.py:437-439 | a guess equal to the secret wins at once, with one guess less, and the game stays won |
| `Games.MissesUseUpGuesses` | api.py:411-442 | each miss uses one guess; the game is lost exactly when the misses use up the last guess, otherwise it stays in progress |
| `Games.SixMissesLose` | api.py:437-442 | from a new game, five misses leave it in progress with 6-n guesses, and the sixth loses it with 0 left |
| `Games.WonAgreesWithFeedback` | api.py:437-439 | for a lower-case guess and a secret without `?`, the won test holds iff every position of the feedback is a correct spot |
| `Games.CapitalsDoNotWin` | api.py:438 | "WORLD" against "world" gets `("world", "?????")` as feedback and leaves the game in progress |
| `Games.InProgressHasGuesses` | api.py:398-412 | in consistent tables a game with a state row has a game row, and a game in progress has guesses left, so the join at api.py:399-409 finds it and the test at api.py:412 holds |
| `Games.CreateKeepsTables` | api.py:270-289 | the next id is in none of the tables, and inserting a game row and the initial state row under it keeps the tables consistent |
| `Games.ReplaceKeepsTables` | api.py:424-450 | replacing one known game's state and history by a pair that satisfies the game invariant keeps the tables consistent |
| `Games.AcceptKeepsTables` | api.py:424-450 | appending the history row `(guess, r-1)` and writing the advanced state keeps the tables consistent, and leaves every other game's history unchanged |
| `Games.AppendKeepsShape` | api.py:424-432 | appending a five-character guess to a game's history keeps every stored guess five characters long |
| `Games.ReplayShowsEachRow` | api.py:335-346 | the replayed history has, at every position, that history row's guess and remaining count with the guess re-evaluated against the secret |
| `Games.ReplayStep` | api.py:335-346 | replaying one more row appends exactly that row's entry to the response |
| `Games.Service.constructor` | share/populate.py:4-22 | the service starts with the given users and valid words and no games, and it is well formed and valid |
| `Games.Service.CreateGame` | api.py:258-305 | an unknown user gets 404 and changes nothing. Otherwise a game row with the next id and the secret is inserted, then a state row with 6 guesses "In Progress"; an insert on an existing key gives 409. Each rejection carries the source's message. The secret must be a five-letter word from the word list, as secrets drawn from correct.json are. The invariant, including "every secret is a listed word", is kept, and on a valid store a known user always gets a game |
| `Games.Service.SubmitGuess` | api.py:363-461 | the checks in the code's order, each rejection changing nothing: wrong length (400); a status that is not "In Progress", or none, gives the frozen status and count and leaves `states` and `history` unchanged, so a won or lost game never changes; a word not in the list (400); no game row (404); no guesses left (400). Otherwise the feedback, `states[id] := Advance(...)` and exactly one history row `(guess, r-1)` appended. Only that game changes, and the invariant is kept. For a five-letter listed word and a known game, the new state is one step of `Run` from the old one, so the lemmas about `Run` apply to the handler. On a valid store the 404 and "No guesses left" are never answered, and guessing the secret of a game in progress is accepted and wins |
| `Games.Service.GetGameState` | api.py:312-355 | no state row, game row or history gives 404 with the source's message. A finished game gives only its status and remaining count. A game in progress gives `Replay` of its history: one entry per history row in order, with the stored guess, its remaining count and its re-evaluated feedback (`ReplayShowsEachRow`) |

## Left out

- The HTTP layer: Quart routing, request and response schemas, the error handlers (api.py:141-161) and JSON parsing. A reply is a datatype value, and an `abort` is a reply constructor that carries the message the client receives: the text given to `abort`, or for a 409 the text of the 409 handler (api.py:159-161). The "Bad Request:" and "Not Found:" prefixes the handlers add are not modelled.
- User registration, sign-in and password hashing (api.py:74-85, 169-249): foreign cryptography and SQL lookups. The `users` table is reduced to a set of names given to the constructor.
- `_get_db` and `_get_random_word` (api.py:88-100): connection handling, file reading and `randint`. The secret word is a parameter of `CreateGame`, and the valid-word list is a set given to the constructor.
- `get_progress_game` (api.py:465-482): a filtering SQL query that also prints.
- share/populate.py beyond the valid-word set it loads: file reading and inserts through a cursor.
- Concurrency: each handler is one atomic Dafny method. In the source, the history insert and the state update of `check_guess` are two separate statements, and two requests can interleave. Nothing in the source retries or checks for conflicts.
- Row order: `get_game_state` reads the history through a join without ORDER BY. The model returns it in insertion order.
- LowerStr: maps only 'A'..'Z'. Python's `str.lower` also lower-cases other Unicode letters, some of them into two characters.
- CheckString: requires a five-character guess and secret. `check_guess` rejects other guess lengths first, and secret words come from a five-letter word list. So the other cases of `_check_string` are not modelled. For a shorter guess it returns patterns that only mark positions the guess reaches. A longer guess, or one that `lower()` makes longer, raises `IndexError`.
- Service.SubmitGuess: requires `WellFormed()` (five-character secrets and stored guesses), for the same reason.
- Service.CreateGame: the 409 branches stand for any integrity error an insert raises. The model raises one only when the key is already taken.
- Status values other than "In Progress", "won" and "lost" cannot be stored, so the case where `get_game_state` skips a row with an unknown status is not modelled.
