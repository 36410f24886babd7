/** The per-game state machine of the word game service: the `games`,
    `game_states` and `game_history` tables, and the three handlers that
    create a game, submit a guess and read a game back (`create_game`,
    `check_guess` and `get_game_state` in api.py). */
module Games {
  import opened Evaluator

  /** Guesses a new game starts with. */
  const MaxGuesses: int := 6

  const WrongLength: string := "Guess must be 5 letters long."
  const NotAWord: string := "Guess is not a valid word."
  const NoSuchGame: string := "Game with that id does not exist."
  const NoGuessesLeft: string := "No guesses left."
  const UnknownUser: string := "Username does not exist."
  /** The 409 handler replaces the integrity error with this text. */
  const UserExists: string := "Username already exists"
  const NoGameHistory: string := "No game history found for given game id."

  datatype Option<T> = None | Some(value: T)

  /** The `status` column of `game_states`. */
  datatype Status = InProgress | Won | Lost

  /** A `game_states` row. */
  datatype GameState = GameState(status: Status, remaining: int)

  /** A `games` row: the secret word and the user who owns the game. */
  datatype Game = Game(secret: string, owner: string)

  /** A `game_history` row: a guess and the guesses left after it. */
  datatype Row = Row(guess: string, remaining: int)

  /** Reply of `create_game`. */
  datatype Creation =
    | Created(gameId: int, remaining: int, status: Status)
    | NoSuchUser(message: string)      // 404
    | Conflict(message: string)        // 409: an insert hit an existing key

  /** Reply of `check_guess`. */
  datatype Reply =
    | Frozen(current: Option<Status>, left: Option<int>)
    | Accepted(gameId: int, remaining: int, status: Status, correct: string, incorrect: string, guess: string)
    | BadRequest(message: string)      // 400
    | NotFound(message: string)        // 404

  /** One element of the history `get_game_state` returns for a game in progress. */
  datatype Entry = Entry(gameId: int, guess: string, remaining: int, correct: string, incorrect: string)

  /** Reply of `get_game_state`. */
  datatype View =
    | Progress(entries: seq<Entry>)
    | Finished(gameId: int, status: Status, remaining: int)
    | NoHistory(message: string)       // 404

  /** The state `create_game` stores for a new game. */
  function Initial(): GameState
  {
    GameState(InProgress, MaxGuesses)
  }

  /** The status written back after an accepted guess that leaves `after`
      guesses: the guess as submitted is compared with the secret. */
  function Conclude(guess: string, secret: string, after: int): Status
  {
    if guess == secret then Won else if after == 0 then Lost else InProgress
  }

  /** The state after one accepted guess. */
  function Advance(st: GameState, guess: string, secret: string): GameState
  {
    GameState(Conclude(guess, secret, st.remaining - 1), st.remaining - 1)
  }

  /** The history entry shown for a stored guess: the guess re-evaluated. */
  function Feedback(id: int, row: Row, secret: string): Entry
    requires |row.guess| == WordLength && |secret| == WordLength
  {
    var patterns := Evaluate(row.guess, secret);
    Entry(id, row.guess, row.remaining, patterns.0, patterns.1)
  }

  /** The rows of a game's history as `get_game_state` shows them: each
      stored guess with its feedback, oldest first. */
  function Replay(id: int, rows: seq<Row>, secret: string): (r: seq<Entry>)
    requires |secret| == WordLength
    requires forall j :: 0 <= j < |rows| ==> |rows[j].guess| == WordLength
    ensures |r| == |rows|
  {
    if rows == [] then []
    else Replay(id, rows[..|rows| - 1], secret) + [Feedback(id, rows[|rows| - 1], secret)]
  }

  /** Every history row is shown, in order, as its own feedback. */
  lemma {:induction false} ReplayShowsEachRow(id: int, rows: seq<Row>, secret: string)
    requires |secret| == WordLength
    requires forall j :: 0 <= j < |rows| ==> |rows[j].guess| == WordLength
    ensures forall j :: 0 <= j < |rows| ==> Replay(id, rows, secret)[j] == Feedback(id, rows[j], secret)
  {
    if rows != [] {
      ReplayShowsEachRow(id, rows[..|rows| - 1], secret);
    }
  }

  /** Replaying one more row appends that row's feedback. */
  lemma ReplayStep(id: int, rows: seq<Row>, secret: string, k: nat)
    requires |secret| == WordLength && k < |rows|
    requires forall j :: 0 <= j < |rows| ==> |rows[j].guess| == WordLength
    ensures Replay(id, rows[..k + 1], secret) == Replay(id, rows[..k], secret) + [Feedback(id, rows[k], secret)]
  {
    assert rows[..k + 1][..k] == rows[..k];
  }

  /** What a game that has only been changed by `create_game` and accepted
      guesses looks like: one history row per guess used, each row recording
      the guesses left after it; no guess before the last equals the secret;
      a game in progress has guesses left and has not been won; a won game's
      last guess is the secret; a lost game has no guesses left and its last
      guess is not the secret. */
  ghost predicate GameOk(st: GameState, rows: seq<Row>, secret: string)
  {
    && 0 <= st.remaining <= MaxGuesses
    && |rows| == MaxGuesses - st.remaining
    && (forall k :: 0 <= k < |rows| ==> rows[k].remaining == MaxGuesses - 1 - k)
    && (forall k :: 0 <= k < |rows| - 1 ==> rows[k].guess != secret)
    && (st.status == InProgress ==> st.remaining > 0 && (rows == [] || rows[|rows| - 1].guess != secret))
    && (st.status == Won ==> rows != [] && rows[|rows| - 1].guess == secret)
    && (st.status == Lost ==> st.remaining == 0 && rows != [] && rows[|rows| - 1].guess != secret)
  }

  /** The state a game reaches when `guesses` are submitted one after the
      other, each of them five letters long and a valid word: a finished
      game, or one without guesses left, does not move. */
  function Run(st: GameState, guesses: seq<string>, secret: string): GameState
    decreases |guesses|
  {
    if guesses == [] || st.status != InProgress || st.remaining <= 0 then st
    else Run(Advance(st, guesses[0], secret), guesses[1..], secret)
  }

  // ---------------------------------------------------------------------------
  // Lemmas about one game
  // ---------------------------------------------------------------------------

  /** One submitted guess moves a game in progress with guesses left by
      `Advance`, and leaves any other game as it is. */
  lemma RunOneGuess(st: GameState, guess: string, secret: string)
    ensures Run(st, [guess], secret)
      == if st.status != InProgress || st.remaining <= 0 then st else Advance(st, guess, secret)
  {
    assert [guess][1..] == [];
  }

  /** A new game satisfies the game invariant. */
  lemma InitialOk(secret: string)
    ensures GameOk(Initial(), [], secret)
  {
  }

  /** An accepted guess keeps the game invariant. */
  lemma AdvanceOk(st: GameState, rows: seq<Row>, secret: string, guess: string)
    requires GameOk(st, rows, secret) && st.status == InProgress
    ensures GameOk(Advance(st, guess, secret), rows + [Row(guess, st.remaining - 1)], secret)
  {
    var rows' := rows + [Row(guess, st.remaining - 1)];
    assert forall k :: 0 <= k < |rows| ==> rows'[k] == rows[k];
  }

  /** A guess equal to the secret wins at once, whatever is left, and the
      game then stays won with one guess less. */
  lemma GuessingTheSecretWins(st: GameState, rest: seq<string>, secret: string)
    requires st.status == InProgress && st.remaining > 0
    ensures Run(st, [secret] + rest, secret) == GameState(Won, st.remaining - 1)
  {
    assert ([secret] + rest)[1..] == rest;
  }

  /** Guesses that all miss the secret use up one guess each; the game is
      lost exactly when they use up the last one. */
  lemma {:induction false} MissesUseUpGuesses(st: GameState, guesses: seq<string>, secret: string)
    requires st.status == InProgress && 0 < |guesses| <= st.remaining
    requires forall k :: 0 <= k < |guesses| ==> guesses[k] != secret
    ensures Run(st, guesses, secret)
      == GameState(if |guesses| == st.remaining then Lost else InProgress, st.remaining - |guesses|)
    decreases |guesses|
  {
    var next := Advance(st, guesses[0], secret);
    if |guesses| > 1 {
      MissesUseUpGuesses(next, guesses[1..], secret);
    } else {
      assert guesses[1..] == [];
    }
  }

  /** Six misses from a new game: in progress after each of the first five,
      lost with no guesses left after the sixth. */
  lemma SixMissesLose(guesses: seq<string>, secret: string)
    requires |guesses| == 6 && forall k :: 0 <= k < 6 ==> guesses[k] != secret
    ensures forall n :: 1 <= n < 6 ==> Run(Initial(), guesses[..n], secret) == GameState(InProgress, 6 - n)
    ensures Run(Initial(), guesses, secret) == GameState(Lost, 0)
  {
    forall n | 1 <= n < 6
      ensures Run(Initial(), guesses[..n], secret) == GameState(InProgress, 6 - n)
    {
      MissesUseUpGuesses(Initial(), guesses[..n], secret);
    }
    MissesUseUpGuesses(Initial(), guesses, secret);
  }

  /** The status written back agrees with the feedback when the guess is in
      lower case and the secret holds no placeholder: the game is won exactly
      when every position is a correct spot. */
  lemma WonAgreesWithFeedback(guess: string, secret: string)
    requires |guess| == WordLength && |secret| == WordLength
    requires LowerStr(guess) == guess && Blank !in secret
    ensures Conclude(guess, secret, 0) == Won <==> Evaluate(guess, secret).0 == secret
  {
    EvaluateMatchesRule(guess, secret);
    AllCorrectIsEqual(guess, secret);
  }

  /** The won test compares the guess as submitted, while the feedback
      lower-cases it: a guess in capitals gets every position as a correct
      spot and still does not win. */
  lemma CapitalsDoNotWin()
    ensures Evaluate("WORLD", "world") == ("world", "?????")
    ensures Advance(GameState(InProgress, 3), "WORLD", "world") == GameState(InProgress, 2)
  {
    var s := LowerStr("WORLD");
    assert s[0] == 'w' && s[1] == 'o' && s[2] == 'r' && s[3] == 'l' && s[4] == 'd';
    assert s == "world";
  }

  // ---------------------------------------------------------------------------
  // The tables as values
  // ---------------------------------------------------------------------------

  /** The rows of `game_history` for one game, oldest first. */
  function RowsOf(history: map<int, seq<Row>>, id: int): seq<Row>
  {
    if id in history then history[id] else []
  }

  /** The shape the handlers rely on: secret words and stored guesses are
      five characters long. */
  ghost predicate ShapeOk(games: map<int, Game>, history: map<int, seq<Row>>)
  {
    && (forall id :: id in games ==> |games[id].secret| == WordLength)
    && (forall id, k :: id in history && 0 <= k < |history[id]| ==> |history[id][k].guess| == WordLength)
  }

  /** The tables as the handlers leave them: a state row and a game row for
      every game, history only for known games, ids below the next one, and
      every game satisfying the game invariant. */
  ghost predicate TablesOk(games: map<int, Game>, states: map<int, GameState>, history: map<int, seq<Row>>, nextId: int)
  {
    && states.Keys == games.Keys
    && history.Keys <= games.Keys
    && (forall id :: id in games ==> id < nextId)
    && (forall id :: id in states ==> GameOk(states[id], RowsOf(history, id), games[id].secret))
  }

  /** Every secret word is in the word list: secrets are drawn from
      correct.json, which is also loaded into `valid_words`. */
  ghost predicate SecretsAreWords(games: map<int, Game>, validWords: set<string>)
  {
    forall id :: id in games ==> games[id].secret in validWords
  }

  /** In consistent tables a game with a state row has a game row, and a game
      in progress has guesses left. */
  lemma InProgressHasGuesses(games: map<int, Game>, states: map<int, GameState>, history: map<int, seq<Row>>,
                             nextId: int, id: int)
    requires TablesOk(games, states, history, nextId) && id in states
    ensures id in games
    ensures states[id].status == InProgress ==> states[id].remaining > 0
  {
    assert GameOk(states[id], RowsOf(history, id), games[id].secret);
  }

  /** Inserting a new game under the next id, with the initial state and no
      history, keeps the tables consistent. */
  lemma CreateKeepsTables(games: map<int, Game>, states: map<int, GameState>, history: map<int, seq<Row>>,
                          nextId: int, game: Game)
    requires TablesOk(games, states, history, nextId)
    ensures nextId !in games && nextId !in states && RowsOf(history, nextId) == []
    ensures TablesOk(games[nextId := game], states[nextId := Initial()], history, nextId + 1)
  {
    var games', states' := games[nextId := game], states[nextId := Initial()];
    forall id | id in states'
      ensures GameOk(states'[id], RowsOf(history, id), games'[id].secret)
    {
      if id == nextId {
        InitialOk(game.secret);
      }
    }
  }

  /** Replacing one known game's state and history by ones that satisfy the
      game invariant keeps the tables consistent. */
  lemma ReplaceKeepsTables(games: map<int, Game>, states: map<int, GameState>, history: map<int, seq<Row>>,
                           nextId: int, id: int, st: GameState, rows: seq<Row>)
    requires TablesOk(games, states, history, nextId)
    requires id in states && GameOk(st, rows, games[id].secret)
    ensures TablesOk(games, states[id := st], history[id := rows], nextId)
  {
    var states', history' := states[id := st], history[id := rows];
    forall other | other in states'
      ensures GameOk(states'[other], RowsOf(history', other), games[other].secret)
    {
      if other != id {
        assert states'[other] == states[other];
        assert RowsOf(history', other) == RowsOf(history, other);
      }
    }
  }

  /** Accepting a guess for a game in progress (its state replaced by
      `Advance`, one history row appended) keeps the tables consistent and
      changes no other game. */
  lemma AcceptKeepsTables(games: map<int, Game>, states: map<int, GameState>, history: map<int, seq<Row>>,
                          nextId: int, id: int, guess: string)
    requires TablesOk(games, states, history, nextId)
    requires id in states && states[id].status == InProgress
    ensures var next := Advance(states[id], guess, games[id].secret);
      var history' := history[id := RowsOf(history, id) + [Row(guess, next.remaining)]];
      && TablesOk(games, states[id := next], history', nextId)
      && forall other :: other != id ==> RowsOf(history', other) == RowsOf(history, other)
  {
    var secret := games[id].secret;
    var next := Advance(states[id], guess, secret);
    var rows := RowsOf(history, id) + [Row(guess, next.remaining)];
    AdvanceOk(states[id], RowsOf(history, id), secret, guess);
    ReplaceKeepsTables(games, states, history, nextId, id, next, rows);
  }

  /** Appending a five-letter guess keeps the shape of the tables. */
  lemma AppendKeepsShape(games: map<int, Game>, history: map<int, seq<Row>>, id: int, row: Row)
    requires ShapeOk(games, history) && |row.guess| == WordLength
    ensures ShapeOk(games, history[id := RowsOf(history, id) + [row]])
  {
    var rows := RowsOf(history, id) + [row];
    assert forall k :: 0 <= k < |rows| - 1 ==> rows[k] == RowsOf(history, id)[k];
  }

  // ---------------------------------------------------------------------------
  // The tables and the handlers
  // ---------------------------------------------------------------------------

  class Service {
    /** `users`, reduced to the user names (registration is not modelled). */
    var users: set<string>
    /** `valid_words`. */
    var validWords: set<string>
    var games: map<int, Game>
    var states: map<int, GameState>
    var history: map<int, seq<Row>>
    /** The next id the `games` table assigns. */
    var nextId: int

    ghost predicate WellFormed()
      reads this
    {
      ShapeOk(games, history)
    }

    ghost predicate Valid()
      reads this
    {
      TablesOk(games, states, history, nextId) && SecretsAreWords(games, validWords)
    }

    constructor (users: set<string>, validWords: set<string>)
      ensures this.users == users && this.validWords == validWords
      ensures games == map[] && states == map[] && history == map[] && nextId == 1
      ensures WellFormed() && Valid()
    {
      this.users := users;
      this.validWords := validWords;
      games, states, history := map[], map[], map[];
      nextId := 1;
    }

    /** `create_game`: a game row with the given secret, then a state row
        with six guesses, in progress. */
    method CreateGame(username: string, secret: string) returns (r: Creation)
      requires |secret| == WordLength && secret in validWords
      modifies this
      ensures users == old(users) && validWords == old(validWords) && history == old(history)
      ensures username !in users ==>
        r == NoSuchUser(UnknownUser) && games == old(games) && states == old(states) && nextId == old(nextId)
      ensures username in users && old(nextId) in old(games) ==>
        r == Conflict(UserExists) && games == old(games) && states == old(states) && nextId == old(nextId)
      ensures username in users && old(nextId) !in old(games) ==>
        && games == old(games)[old(nextId) := Game(secret, username)]
        && nextId == old(nextId) + 1
        && (old(nextId) in old(states) ==> r == Conflict(UserExists) && states == old(states))
        && (old(nextId) !in old(states) ==>
              r == Created(old(nextId), MaxGuesses, InProgress) && states == old(states)[old(nextId) := Initial()])
      ensures old(Valid()) ==> Valid() && (username in users ==> r.Created?)
      ensures old(WellFormed()) ==> WellFormed()
    {
      if username !in users {
        return NoSuchUser(UnknownUser);
      }
      var id := nextId;
      if id in games {
        return Conflict(UserExists);
      }
      games := games[id := Game(secret, username)];
      nextId := id + 1;
      if id in states {
        return Conflict(UserExists);
      }
      states := states[id := Initial()];
      r := Created(id, MaxGuesses, InProgress);
      if old(Valid()) {
        CreateKeepsTables(old(games), old(states), history, id, Game(secret, username));
      }
    }

    /** `check_guess`: the checks in the order the handler makes them, then
        one history row and the new state for an accepted guess. */
    method SubmitGuess(id: int, guess: string) returns (r: Reply)
      requires WellFormed()
      modifies this
      ensures users == old(users) && validWords == old(validWords)
      ensures games == old(games) && nextId == old(nextId)
      ensures WellFormed()
      ensures |guess| != WordLength ==>
        r == BadRequest(WrongLength) && states == old(states) && history == old(history)
      ensures |guess| == WordLength && id !in old(states) ==>
        r == Frozen(None, None) && states == old(states) && history == old(history)
      ensures |guess| == WordLength && id in old(states) && old(states)[id].status != InProgress ==>
        && r == Frozen(Some(old(states)[id].status), Some(old(states)[id].remaining))
        && states == old(states) && history == old(history)
      ensures |guess| == WordLength && id in old(states) && old(states)[id].status == InProgress ==>
        && (guess !in validWords ==>
              r == BadRequest(NotAWord) && states == old(states) && history == old(history))
        && (guess in validWords && id !in games ==>
              r == NotFound(NoSuchGame) && states == old(states) && history == old(history))
        && (guess in validWords && id in games && old(states)[id].remaining <= 0 ==>
              r == BadRequest(NoGuessesLeft) && states == old(states) && history == old(history))
        && (guess in validWords && id in games && old(states)[id].remaining > 0 ==>
              var st := Advance(old(states)[id], guess, games[id].secret);
              && r == Accepted(id, st.remaining, st.status,
                               Evaluate(guess, games[id].secret).0, Evaluate(guess, games[id].secret).1, guess)
              && states == old(states)[id := st]
              && history == old(history)[id := RowsOf(old(history), id) + [Row(guess, st.remaining)]])
      ensures old(Valid()) ==> Valid()
      ensures |guess| == WordLength && guess in validWords && id in old(states) && id in games ==>
        states == old(states)[id := Run(old(states)[id], [guess], games[id].secret)]
      ensures old(Valid()) ==> !r.NotFound? && r != BadRequest(NoGuessesLeft)
      ensures (old(Valid()) && id in old(states) && old(states)[id].status == InProgress &&
               id in games && guess == games[id].secret) ==> r.Accepted? && r.status == Won
    {
      if |guess| != WordLength {
        return BadRequest(WrongLength);
      }
      var status := if id in states then Some(states[id].status) else None;
      if status != Some(InProgress) {
        var left := if id in states then Some(states[id].remaining) else None;
        if id in states && id in games {
          RunOneGuess(states[id], guess, games[id].secret);
        }
        return Frozen(status, left);
      }
      if guess !in validWords {
        return BadRequest(NotAWord);
      }
      if Valid() {
        InProgressHasGuesses(games, states, history, nextId, id);
      }
      if id !in games {
        return NotFound(NoSuchGame);
      }
      var secret, st := games[id].secret, states[id];
      RunOneGuess(st, guess, secret);
      if st.remaining > 0 {
        var correct, incorrect := CheckString(guess, secret);
        var next := Advance(st, guess, secret);
        if Valid() {
          AcceptKeepsTables(games, states, history, nextId, id, guess);
        }
        AppendKeepsShape(games, history, id, Row(guess, next.remaining));
        history := history[id := RowsOf(history, id) + [Row(guess, next.remaining)]];
        states := states[id := next];
        r := Accepted(id, next.remaining, next.status, correct, incorrect, guess);
      } else {
        r := BadRequest(NoGuessesLeft);
      }
    }

    /** `get_game_state`: the re-evaluated history of a game in progress,
        only the status and the guesses left of a finished one. */
    method GetGameState(id: int) returns (v: View)
      requires WellFormed()
      ensures id !in states || id !in games || RowsOf(history, id) == [] ==> v == NoHistory(NoGameHistory)
      ensures id in states && id in games && RowsOf(history, id) != [] && states[id].status != InProgress ==>
        v == Finished(id, states[id].status, states[id].remaining)
      ensures id in states && id in games && RowsOf(history, id) != [] && states[id].status == InProgress ==>
        v == Progress(Replay(id, RowsOf(history, id), games[id].secret))
    {
      if id !in states || id !in games || RowsOf(history, id) == [] {
        return NoHistory(NoGameHistory);
      }
      var rows, secret, st := RowsOf(history, id), games[id].secret, states[id];
      assert forall j :: 0 <= j < |rows| ==> |rows[j].guess| == WordLength;
      var response: seq<Entry> := [];
      for k := 0 to |rows|
        invariant st.status != InProgress ==> k == 0
        invariant response == Replay(id, rows[..k], secret)
      {
        if st.status == InProgress {
          var row := rows[k];
          var correct, incorrect := CheckString(row.guess, secret);
          ReplayStep(id, rows, secret, k);
          response := response + [Entry(id, row.guess, row.remaining, correct, incorrect)];
        } else {
          return Finished(id, st.status, st.remaining);
        }
      }
      assert rows[..|rows|] == rows;
      return Progress(response);
    }
  }
}
