/**
 * The JSON request handlers (game/views.py) as methods over the record
 * store. A handler answers `Ok(body)` or `Err(status)`; every rejection
 * leaves the store as it was.
 *
 * Request fields arrive as strings (a missing field is the empty string,
 * as `request.POST.get(name, '')` makes it) or as `Option`s where the
 * handler tells a missing field from an empty one. A player id is taken
 * already converted to a number; `None` stands for a missing or empty id.
 */
module Views {
  import opened Common
  import opened Text
  import opened Models
  import Services

  /** `{'room_code': ..., 'player_id': ...}` of `create_room` and `join_room`. */
  datatype Joined = Joined(roomCode: string, playerId: nat)

  /** The `question` object of `choose_truth_dare` and `admin_inject_question`. */
  datatype QuestionInfo = QuestionInfo(id: nat, text: string, qtype: string, source: Source)

  /** The body of a successful `submit_answer`. */
  datatype AnswerReply = AnswerReply(nextTurn: Option<string>, round: int)

  /** The body of a successful `next_round`. */
  datatype TurnReply = TurnReply(nextTurn: Option<string>, nextTurnId: Option<nat>, round: int)

  /** What the request body of `start_game` is, when it is read at all. */
  datatype Body = Empty | JsonObject | NotJsonObject

  /** One entry of `players_data` in `room_status`. */
  datatype PlayerInfo = PlayerInfo(id: nat, name: string, joinOrder: int)

  datatype QuestionView = QuestionView(id: nat, text: string, qtype: string, source: Source, isAnswered: bool)

  datatype AnswerView = AnswerView(id: nat, text: string, playerName: string, playerId: nat)

  /** The body of `room_status`. */
  datatype RoomStatus = RoomStatus(
    roomCode: string,
    isFull: bool,
    isActive: bool,
    gameStarted: bool,
    players: seq<PlayerInfo>,
    round: Option<int>,
    turnName: Option<string>,
    turnId: Option<nat>,
    question: Option<QuestionView>,
    answer: Option<AnswerView>,
    waitingForQuestion: bool,
    waitingForAnswer: bool)

  /** The `question` object sent to a standalone user. */
  datatype StandaloneQuestion = StandaloneQuestion(text: string, qtype: Option<string>, source: Source)

  // ----------------------------------------------------------------------
  // Checks
  // ----------------------------------------------------------------------

  /** `get_object_or_404(Room, code=room_code.upper())`: active or not. */
  function RoomByUrl(t: Tables, roomCode: string): Option<nat> {
    FindRoom(t.rooms, Upper(roomCode), false)
  }

  /** `Player.objects.get(id=player_id, room=room)` succeeds. */
  predicate InRoom(t: Tables, p: nat, room: nat) {
    p < |t.players| && t.players[p].room == room
  }

  /** `room.players.filter(name=player_name).exists()`. */
  predicate NameTaken(players: seq<Player>, room: nat, name: string) {
    exists p :: 0 <= p < |players| && players[p].room == room && players[p].name == name
  }

  /** The caller identified for a turn action: its room, itself, and the room's game state. */
  datatype Turn = Turn(room: nat, player: nat, game: nat)

  /**
   * The checks `choose_truth_dare` and `submit_answer` make, in their order:
   * the room (404), the request fields (400), the player (404), and that the
   * room has a game state whose turn is the player's (400).
   */
  function TurnCheck(t: Tables, roomCode: string, playerId: Option<nat>, fieldsOk: bool): (c: Outcome<Turn>)
    ensures c.Ok? <==>
              && RoomByUrl(t, roomCode).Some? && fieldsOk && playerId.Some?
              && InRoom(t, playerId.value, RoomByUrl(t, roomCode).value)
              && CurrentGameState(t.gameStates, RoomByUrl(t, roomCode).value).Some?
              && t.gameStates[CurrentGameState(t.gameStates, RoomByUrl(t, roomCode).value).value].currentTurn == playerId
    ensures c.Ok? ==>
              && c.value.room == RoomByUrl(t, roomCode).value && Some(c.value.player) == playerId
              && Some(c.value.game) == CurrentGameState(t.gameStates, c.value.room)
    ensures c.Err? ==>
              c.status == (if RoomByUrl(t, roomCode).None? then NotFound
                           else if playerId.None? || !fieldsOk then BadRequest
                           else if !InRoom(t, playerId.value, RoomByUrl(t, roomCode).value) then NotFound
                           else BadRequest)
  {
    match RoomByUrl(t, roomCode)
    case None => Err(NotFound)
    case Some(r) =>
      if playerId.None? || !fieldsOk then Err(BadRequest)
      else if !InRoom(t, playerId.value, r) then Err(NotFound)
      else match CurrentGameState(t.gameStates, r)
        case None => Err(BadRequest)
        case Some(g) =>
          if t.gameStates[g].currentTurn != playerId then Err(BadRequest)
          else Ok(Turn(r, playerId.value, g))
  }

  /** A caller that passes the turn check holds the turn of the current game of its own room. */
  lemma TurnCheckOwnership(t: Tables, roomCode: string, playerId: Option<nat>, fieldsOk: bool)
    requires ValidTables(t)
    requires TurnCheck(t, roomCode, playerId, fieldsOk).Ok?
    ensures var c := TurnCheck(t, roomCode, playerId, fieldsOk).value;
            && c.player in PlayersOf(t.players, c.room)
            && |PlayersOf(t.players, c.room)| == 2
            && t.rooms[c.room].code == Upper(roomCode)
  {
    var c := TurnCheck(t, roomCode, playerId, fieldsOk).value;
    assert GameStateValid(t.players, t.gameStates[c.game]);
  }

  // ----------------------------------------------------------------------
  // Store validity of the handlers' insertions
  // ----------------------------------------------------------------------

  /**
   * Adding a player who is the first or second of its room, with a fresh
   * name there, keeps the store valid: the room had no game state yet.
   */
  lemma PlayerAddedValid(t: Tables, p: Player)
    requires ValidTables(t) && p.room < |t.rooms|
    requires p.joinOrder == |PlayersOf(t.players, p.room)| + 1 <= 2
    requires !NameTaken(t.players, p.room, p.name)
    ensures ValidTables(t.(players := t.players + [p]))
  {
    var players := t.players + [p];
    var n := |t.players|;
    assert players[..n] == t.players;
    PlayerCountIsRoster(t.players, p.room);
    assert JoinOrdersValid(players);
    assert PlayersValid(|t.rooms|, players);
    forall g | 0 <= g < |t.gameStates|
      ensures GameStateValid(players, t.gameStates[g])
    {
      var s := t.gameStates[g];
      PlayersOfAppend(t.players, p, s.room);
      assert GameStateValid(t.players, s);
    }
  }

  /** Creating a room with a fresh well-formed code and its first player keeps the store valid. */
  lemma RoomCreatedValid(t: Tables, code: string, name: string)
    requires ValidTables(t) && IsRoomCode(code) && code !in Codes(t.rooms)
    ensures ValidTables(t.(rooms := t.rooms + [Room(code, true, Some(name))],
                           players := t.players + [Player(name, |t.rooms|, 1)]))
  {
    var rooms := t.rooms + [Room(code, true, Some(name))];
    var t1 := t.(rooms := rooms);
    assert forall i :: 0 <= i < |t.rooms| ==> rooms[i] == t.rooms[i] && t.rooms[i].code in Codes(t.rooms);
    assert RoomsValid(rooms);
    assert ValidTables(t1);
    PlayersOfNone(t.players, |t.rooms|);
    PlayerAddedValid(t1, Player(name, |t.rooms|, 1));
  }

  // ----------------------------------------------------------------------
  // Rooms and players
  // ----------------------------------------------------------------------

  /**
   * `create_room`: the stripped name is required; a new active room gets a
   * drawn code and its creator becomes the room's player with join order 1.
   * Should all 101 draws collide with existing codes, the insert violates
   * the code's uniqueness and the request fails with 500.
   */
  method CreateRoom(db: Db, playerName: string, rand: nat -> nat) returns (out: Outcome<Joined>)
    requires db.Valid()
    modifies db
    ensures db.Valid()
    ensures Strip(playerName) == "" ==> out == Err(BadRequest)
    ensures out.Err? ==> db.Snapshot() == old(db.Snapshot())
    ensures out == Err(ServerError) ==>
              forall k :: 0 <= k <= MaxAttempts ==> Candidate(rand, k) in Codes(old(db.rooms))
    ensures Strip(playerName) != "" ==> out.Ok? || out == Err(ServerError)
    ensures Strip(playerName) != "" && Candidate(rand, 0) !in Codes(old(db.rooms)) ==>
              out == Ok(Joined(Candidate(rand, 0), |old(db.players)|))
    ensures out.Ok? ==>
              && Strip(playerName) != ""
              && (exists a :: 0 <= a <= MaxAttempts && out.value.roomCode == Candidate(rand, a)
                                && forall b :: 0 <= b < a ==> Candidate(rand, b) in Codes(old(db.rooms)))
              && IsRoomCode(out.value.roomCode) && out.value.roomCode !in Codes(old(db.rooms))
              && out.value.playerId == |old(db.players)|
              && db.Snapshot() == old(db.Snapshot()).(
                   rooms := old(db.rooms) + [Room(out.value.roomCode, true, Some(Strip(playerName)))],
                   players := old(db.players) + [Player(Strip(playerName), |old(db.rooms)|, 1)])
  {
    var name := Strip(playerName);
    if name == "" {
      return Err(BadRequest);
    }
    var existing := Codes(db.rooms);
    var code, attempts := AssignCode("", existing, rand);
    if code in existing {
      return Err(ServerError);
    }
    assert code == Candidate(rand, attempts);
    ghost var t := db.Snapshot();
    ghost var t' := t.(rooms := t.rooms + [Room(code, true, Some(name))],
                       players := t.players + [Player(name, |t.rooms|, 1)]);
    RoomCreatedValid(t, code, name);
    db.players := db.players + [Player(name, |db.rooms|, 1)];
    db.rooms := db.rooms + [Room(code, true, Some(name))];
    assert db.Snapshot() == t';
    out := Ok(Joined(code, |db.players| - 1));
  }

  /**
   * The checks of `join_room`, in their order, on the stripped and
   * upper-cased code and the stripped name: a missing field is 400, an
   * unknown or inactive room 404, a name already taken in the room 400, a
   * full room 400; otherwise the room to join.
   */
  function JoinTarget(t: Tables, code: string, name: string): (c: Outcome<nat>)
    ensures c.Ok? <==>
              && code != "" && name != "" && FindRoom(t.rooms, code, true).Some?
              && !NameTaken(t.players, FindRoom(t.rooms, code, true).value, name)
              && !IsFull(t.players, FindRoom(t.rooms, code, true).value)
    ensures c.Ok? ==> c.value < |t.rooms| && t.rooms[c.value].code == code && t.rooms[c.value].isActive
    ensures c.Err? ==> c.status == if code != "" && name != "" && FindRoom(t.rooms, code, true).None?
                                   then NotFound else BadRequest
  {
    if code == "" || name == "" then Err(BadRequest)
    else match FindRoom(t.rooms, code, true)
      case None => Err(NotFound)
      case Some(room) =>
        if NameTaken(t.players, room, name) then Err(BadRequest)
        else if IsFull(t.players, room) then Err(BadRequest)
        else Ok(room)
  }

  /** `join_room` on a store: after the checks, the player joins with join order the room's player count plus one. */
  function Joining(t: Tables, roomCode: string, playerName: string): Effect<Outcome<Joined>> {
    var code, name := Upper(Strip(roomCode)), Strip(playerName);
    match JoinTarget(t, code, name)
    case Err(status) => Effect(t, Err(status))
    case Ok(room) =>
      Effect(t.(players := t.players + [Player(name, room, PlayerCount(t.players, room) + 1)]),
             Ok(Joined(t.rooms[room].code, |t.players|)))
  }

  /**
   * A join changes the store only when it succeeds. It then adds exactly one
   * player, with a non-empty name nobody in the room has, to the active room
   * whose code was given, as that room's first or second player, and the
   * join order is the player's position in the room; the store stays valid.
   */
  lemma JoiningSound(t: Tables, roomCode: string, playerName: string)
    requires ValidTables(t)
    ensures var e := Joining(t, roomCode, playerName);
            && ValidTables(e.after)
            && (e.result.Err? ==> e.after == t)
            && (e.result.Ok? ==>
                  var code, name := Upper(Strip(roomCode)), Strip(playerName);
                  var r := FindRoom(t.rooms, code, true);
                  var n := |t.players|;
                  && r.Some? && t.rooms[r.value].isActive && name != ""
                  && e.result.value == Joined(code, n)
                  && e.after == t.(players := e.after.players)
                  && |e.after.players| == n + 1 && e.after.players[..n] == t.players
                  && e.after.players[n].name == name && e.after.players[n].room == r.value
                  && !NameTaken(t.players, r.value, name)
                  && |PlayersOf(e.after.players, r.value)| == |PlayersOf(t.players, r.value)| + 1 <= 2
                  && e.after.players[n].joinOrder == |PlayersOf(e.after.players, r.value)|)
  {
    var e := Joining(t, roomCode, playerName);
    if e.result.Ok? {
      var room := FindRoom(t.rooms, Upper(Strip(roomCode)), true).value;
      var p := e.after.players[|t.players|];
      PlayerCountIsRoster(t.players, room);
      PlayerAddedValid(t, p);
      PlayersOfAppend(t.players, p, room);
      assert e.after.players[..|t.players|] == t.players;
    }
  }

  /** `join_room`. */
  method JoinRoom(db: Db, roomCode: string, playerName: string) returns (out: Outcome<Joined>)
    requires db.Valid()
    modifies db
    ensures db.Valid()
    ensures Effect(db.Snapshot(), out) == Joining(old(db.Snapshot()), roomCode, playerName)
  {
    var code, name := Upper(Strip(roomCode)), Strip(playerName);
    var target := JoinTarget(db.Snapshot(), code, name);
    if target.Err? {
      return Err(target.status);
    }
    var room := target.value;
    ghost var t := db.Snapshot();
    JoiningSound(t, roomCode, playerName);
    db.players := db.players + [Player(name, room, PlayerCount(db.players, room) + 1)];
    assert db.Snapshot() == Joining(t, roomCode, playerName).after;
    out := Ok(Joined(db.rooms[room].code, |db.players| - 1));
  }

  // ----------------------------------------------------------------------
  // Turns
  // ----------------------------------------------------------------------

  /**
   * `choose_truth_dare`: after the turn check (the choice must be "truth" or
   * "dare"), the choice is saved and the game state waits for a question;
   * then an API question of that category is added to the current game.
   */
  method ChooseTruthDare(db: Db, roomCode: string, playerId: Option<nat>, choice: Option<string>,
                         cfg: Services.Settings, now: int, doneAt: int,
                         http: Services.HttpRequest -> Services.Response)
    returns (out: Outcome<QuestionInfo>)
    requires db.Valid()
    modifies db
    ensures db.Valid()
    ensures var c := TurnCheck(old(db.Snapshot()), roomCode, playerId, choice.Some? && IsCategory(choice.value));
            && (c.Err? ==> out == Err(c.status) && db.Snapshot() == old(db.Snapshot()))
            && (c.Ok? ==>
                  var text := Services.FreshQuestionText(cfg, choice.value, http);
                  var g := c.value.game;
                  && out == Ok(QuestionInfo(|old(db.questions)|, text, choice.value, API))
                  && db.Snapshot() == old(db.Snapshot()).(
                       gameStates := old(db.gameStates)[g := old(db.gameStates)[g].(
                         currentChoice := choice, waitingForQuestion := true)],
                       questions := old(db.questions) + [Question(c.value.room, g, text, choice.value, API, false)]))
  {
    var c := TurnCheck(db.Snapshot(), roomCode, playerId, choice.Some? && IsCategory(choice.value));
    if c.Err? {
      return Err(c.status);
    }
    var room, g := c.value.room, c.value.game;
    ghost var t := db.Snapshot();
    var s := db.gameStates[g].(currentChoice := choice, waitingForQuestion := true);
    GameStateReplacedValid(t, g, s);
    CurrentGameStateReplaced(t.gameStates, g, s, room);
    db.gameStates := db.gameStates[g := s];
    assert db.Snapshot() == t.(gameStates := t.gameStates[g := s]);
    var q := Services.CreateQuestionFromApi(db, room, choice.value, cfg, now, doneAt, http);
    match q
    case None =>
      out := Err(ServerError);
    case Some(id) =>
      var question := db.questions[id];
      out := Ok(QuestionInfo(id, question.text, question.qtype, question.source));
  }

  /**
   * `submit_answer`: after the turn check (the stripped answer must not be
   * empty), the answer goes to the current question; 500 if there is none.
   * The reply names the player who answered, who still holds the turn, and
   * the unchanged round.
   */
  method SubmitAnswer(db: Db, roomCode: string, playerId: Option<nat>, answerText: string)
    returns (out: Outcome<AnswerReply>)
    requires db.Valid()
    modifies db
    ensures db.Valid()
    ensures var t := old(db.Snapshot());
            var c := TurnCheck(t, roomCode, playerId, Strip(answerText) != "");
            && (c.Err? ==> out == Err(c.status) && db.Snapshot() == t)
            && (c.Ok? && Services.CurrentQuestion(t, c.value.room).None? ==>
                  out == Err(ServerError) && db.Snapshot() == t)
            && (c.Ok? && Services.CurrentQuestion(t, c.value.room).Some? ==>
                  && out == Ok(AnswerReply(Some(t.players[c.value.player].name), t.gameStates[c.value.game].round))
                  && Effect(db.Snapshot(), Some(|t.answers|)) ==
                     Services.Answered(t, c.value.room, c.value.player, Strip(answerText)))
  {
    var text := Strip(answerText);
    var c := TurnCheck(db.Snapshot(), roomCode, playerId, text != "");
    if c.Err? {
      return Err(c.status);
    }
    var room, player, g := c.value.room, c.value.player, c.value.game;
    var state := db.gameStates[g];
    var a := Services.SubmitAnswer(db, room, player, text);
    if a.None? {
      return Err(ServerError);
    }
    out := Ok(AnswerReply(Some(db.players[state.currentTurn.value].name), state.round));
  }

  /**
   * `start_game` (the second definition in the module, which overrides
   * the first): 404 for an unknown room; reading a player id from a body
   * that is not a JSON object raises (500); 400 unless the room is full;
   * otherwise the game is initialised unless it already exists.
   */
  method StartGame(db: Db, roomCode: string, postPlayerId: string, body: Body) returns (out: Outcome<string>)
    requires db.Valid()
    modifies db
    ensures db.Valid()
    ensures out.Err? ==> db.Snapshot() == old(db.Snapshot())
    ensures var r := RoomByUrl(old(db.Snapshot()), roomCode);
            if r.None? then out == Err(NotFound)
            else if postPlayerId == "" && body == NotJsonObject then out == Err(ServerError)
            else if !IsFull(old(db.players), r.value) then out == Err(BadRequest)
            else
              && out == Ok(old(db.rooms)[r.value].code)
              && db.Snapshot() == Services.Initialized(old(db.Snapshot()), r.value).after
              && CurrentGameState(db.gameStates, r.value).Some?
              && (old(CurrentGameState(db.gameStates, r.value)).Some? ==> db.Snapshot() == old(db.Snapshot()))
  {
    var r := RoomByUrl(db.Snapshot(), roomCode);
    if r.None? {
      return Err(NotFound);
    }
    if postPlayerId == "" && body == NotJsonObject {
      return Err(ServerError);
    }
    var room := r.value;
    if !IsFull(db.players, room) {
      return Err(BadRequest);
    }
    RosterShape(db.players, room);
    Services.InitializedSound(db.Snapshot(), room);
    var existing := CurrentGameState(db.gameStates, room);
    if existing.None? {
      var g := Services.InitializeGame(db, room);
      if g.None? {
        return Err(ServerError);
      }
    }
    out := Ok(db.rooms[room].code);
  }

  /**
   * `next_round`: 404 for an unknown room, 500 when the room has no game;
   * otherwise the turn passes on (no check of who asks) and the reply names
   * the player now holding the turn and the round.
   */
  method NextRound(db: Db, roomCode: string) returns (out: Outcome<TurnReply>)
    requires db.Valid()
    modifies db
    ensures db.Valid()
    ensures out.Err? ==> db.Snapshot() == old(db.Snapshot())
    ensures var t := old(db.Snapshot());
            var r := RoomByUrl(t, roomCode);
            if r.None? then out == Err(NotFound)
            else if CurrentGameState(t.gameStates, r.value).None? then out == Err(ServerError)
            else
              var e := Services.Advanced(t, r.value);
              var s := e.after.gameStates[e.result.value];
              && db.Snapshot() == e.after
              && s.currentTurn.Some? && s.currentTurn.value < |t.players|
              && out == Ok(TurnReply(Some(t.players[s.currentTurn.value].name), s.currentTurn, s.round))
  {
    var r := RoomByUrl(db.Snapshot(), roomCode);
    if r.None? {
      return Err(NotFound);
    }
    var g := Services.NextRound(db, r.value);
    if g.None? {
      return Err(ServerError);
    }
    var s := db.gameStates[g.value];
    assert GameStateValid(db.players, s);
    out := Ok(TurnReply(Some(db.players[s.currentTurn.value].name), s.currentTurn, s.round));
  }

  // ----------------------------------------------------------------------
  // Room status
  // ----------------------------------------------------------------------

  /** Question `q` belongs to game state `g` and has been answered. */
  predicate ClosedIn(q: Question, g: nat) {
    q.gameState == g && q.isAnswered
  }

  /**
   * The question `room_status` shows: the current (newest unanswered)
   * question, or else the newest answered question of the current game;
   * when nothing is open that is simply the game's newest question.
   */
  function ShownQuestion(t: Tables, room: nat): (q: Option<nat>)
    ensures q.Some? ==> CurrentGameState(t.gameStates, room).Some? && q.value < |t.questions|
                        && t.questions[q.value].gameState == CurrentGameState(t.gameStates, room).value
    ensures Services.CurrentQuestion(t, room).Some? ==> q == Services.CurrentQuestion(t, room)
    ensures Services.CurrentQuestion(t, room).None? && CurrentGameState(t.gameStates, room).Some? ==>
              var g := CurrentGameState(t.gameStates, room).value;
              && (q.Some? ==> forall j :: q.value < j < |t.questions| ==> t.questions[j].gameState != g)
              && (q.None? ==> forall j :: 0 <= j < |t.questions| ==> t.questions[j].gameState != g)
  {
    match CurrentGameState(t.gameStates, room)
    case None => None
    case Some(g) =>
      match Services.CurrentQuestion(t, room)
      case Some(q) => Some(q)
      case None => LastClosed(t.questions, g)
  }

  /** The newest answered question of game state `g`. */
  function LastClosed(questions: seq<Question>, g: nat): (k: Option<nat>)
    ensures k.Some? ==> k.value < |questions| && ClosedIn(questions[k.value], g)
    ensures k.Some? ==> forall j :: k.value < j < |questions| ==> !ClosedIn(questions[j], g)
    ensures k.None? ==> forall j :: 0 <= j < |questions| ==> !ClosedIn(questions[j], g)
  {
    if questions == [] then None
    else if ClosedIn(questions[|questions| - 1], g) then Some(|questions| - 1)
    else LastClosed(questions[..|questions| - 1], g)
  }

  /** `question.answers.first()`: the newest answer to question `q`. */
  function ShownAnswer(t: Tables, q: nat): (a: Option<nat>)
    ensures a.Some? ==> a.value < |t.answers| && t.answers[a.value].question == q
    ensures a.None? ==> forall b :: 0 <= b < |t.answers| ==> t.answers[b].question != q
  {
    LastAnswerTo(t.answers, q)
  }

  function LastAnswerTo(answers: seq<Answer>, q: nat): (a: Option<nat>)
    ensures a.Some? ==> a.value < |answers| && answers[a.value].question == q
    ensures a.None? ==> forall b :: 0 <= b < |answers| ==> answers[b].question != q
  {
    if answers == [] then None
    else if answers[|answers| - 1].question == q then Some(|answers| - 1)
    else LastAnswerTo(answers[..|answers| - 1], q)
  }

  /** In a valid store the answer shown is the only answer to its question. */
  lemma ShownAnswerOnly(t: Tables, q: nat)
    requires ValidTables(t)
    requires ShownAnswer(t, q).Some?
    ensures forall b :: 0 <= b < |t.answers| && t.answers[b].question == q ==> b == ShownAnswer(t, q).value
  {
  }

  /** The name of the player holding the turn, if any. */
  function TurnName(t: Tables, s: GameState): Option<string>
    requires s.currentTurn.Some? ==> s.currentTurn.value < |t.players|
  {
    match s.currentTurn
    case None => None
    case Some(p) => Some(t.players[p].name)
  }

  /** `current_question` and `current_answer` of `room_status`. */
  function ShownViews(t: Tables, room: nat): (views: (Option<QuestionView>, Option<AnswerView>))
    requires ValidTables(t)
  {
    match ShownQuestion(t, room)
    case None => (None, None)
    case Some(q) =>
      var question := t.questions[q];
      var qv := Some(QuestionView(q, question.text, question.qtype, question.source, question.isAnswered));
      match ShownAnswer(t, q)
      case None => (qv, None)
      case Some(a) => (qv, Some(AnswerView(a, t.answers[a].text, t.players[t.answers[a].player].name, t.answers[a].player)))
  }

  /** `players_data`: id, name and join order of each player of `roster`. */
  function PlayersData(players: seq<Player>, roster: seq<nat>): seq<PlayerInfo>
    requires forall k :: 0 <= k < |roster| ==> roster[k] < |players|
  {
    seq(|roster|, k requires 0 <= k < |roster| =>
      PlayerInfo(roster[k], players[roster[k]].name, players[roster[k]].joinOrder))
  }

  /** The JSON body `room_status` builds for room `room`. */
  function StatusOf(t: Tables, room: nat): RoomStatus
    requires ValidTables(t) && room < |t.rooms|
  {
    var roster := PlayersOf(t.players, room);
    var views := ShownViews(t, room);
    var players := PlayersData(t.players, roster);
    match CurrentGameState(t.gameStates, room)
    case None =>
      RoomStatus(t.rooms[room].code, IsFull(t.players, room), t.rooms[room].isActive, false,
                 players, None, None, None, views.0, views.1, false, false)
    case Some(g) =>
      var s := t.gameStates[g];
      assert GameStateValid(t.players, s);
      RoomStatus(t.rooms[room].code, IsFull(t.players, room), t.rooms[room].isActive, true,
                 players, Some(s.round), TurnName(t, s), s.currentTurn, views.0, views.1,
                 s.waitingForQuestion, s.waitingForAnswer)
  }

  /**
   * The players of the status are the room's players in join order, with
   * join orders 1 and then 2; the room is full exactly when both are there.
   */
  lemma StatusPlayers(t: Tables, room: nat)
    requires ValidTables(t) && room < |t.rooms|
    ensures var v := StatusOf(t, room);
            var roster := PlayersOf(t.players, room);
            && |v.players| == |roster| <= 2
            && (v.isFull <==> |roster| == 2)
            && forall k :: 0 <= k < |roster| ==>
                 v.players[k] == PlayerInfo(roster[k], t.players[roster[k]].name, k + 1)
  {
    RosterShape(t.players, room);
  }

  /**
   * A started game reports its round (at least 1) and the player holding the
   * turn, who is one of the room's players; the status never reports a game
   * waiting for an answer, because no handler sets that flag.
   */
  lemma StatusTurn(t: Tables, room: nat)
    requires ValidTables(t) && room < |t.rooms|
    ensures var v := StatusOf(t, room);
            var gs := CurrentGameState(t.gameStates, room);
            && (v.gameStarted <==> gs.Some?)
            && (gs.None? ==> v.round.None? && v.turnId.None? && v.turnName.None? && !v.waitingForQuestion)
            && (gs.Some? ==>
                  && v.round.Some? && v.round.value >= 1
                  && v.turnId.Some? && v.turnId.value in PlayersOf(t.players, room)
                  && v.turnName == Some(t.players[v.turnId.value].name))
            && !v.waitingForAnswer
  {
    var gs := CurrentGameState(t.gameStates, room);
    if gs.Some? {
      assert GameStateValid(t.players, t.gameStates[gs.value]);
    }
  }

  /**
   * The status shows the room's current question when there is one, and
   * otherwise the newest answered question of the current game; the answer
   * shown is the only answer to the shown question.
   */
  lemma StatusQuestion(t: Tables, room: nat)
    requires ValidTables(t) && room < |t.rooms|
    ensures var v := StatusOf(t, room);
            && (v.question.Some? <==> ShownQuestion(t, room).Some?)
            && (Services.CurrentQuestion(t, room).Some? ==>
                  v.question.Some? && v.question.value.id == Services.CurrentQuestion(t, room).value
                  && !v.question.value.isAnswered)
            && (v.question.None? ==> v.answer.None?)
            && (v.answer.Some? ==>
                  && v.question.Some? && v.answer.value.id < |t.answers|
                  && t.answers[v.answer.value.id].question == v.question.value.id
                  && forall b :: 0 <= b < |t.answers| && t.answers[b].question == v.question.value.id ==>
                       b == v.answer.value.id)
  {
    var shown := ShownQuestion(t, room);
    if shown.Some? && ShownAnswer(t, shown.value).Some? {
      ShownAnswerOnly(t, shown.value);
    }
  }

  /** `room_status`: 404 for an unknown room, otherwise its status. */
  function StatusReply(t: Tables, roomCode: string): Outcome<RoomStatus>
    requires ValidTables(t)
  {
    match RoomByUrl(t, roomCode)
    case None => Err(NotFound)
    case Some(room) => Ok(StatusOf(t, room))
  }

  /** The loop of `room_status` that appends one entry per player to `players_data`. */
  method CollectPlayers(players: seq<Player>, roster: seq<nat>) returns (data: seq<PlayerInfo>)
    requires forall k :: 0 <= k < |roster| ==> roster[k] < |players|
    ensures data == PlayersData(players, roster)
  {
    data := [];
    var i := 0;
    while i < |roster|
      invariant 0 <= i <= |roster| && |data| == i
      invariant forall k :: 0 <= k < i ==>
                  data[k] == PlayerInfo(roster[k], players[roster[k]].name, players[roster[k]].joinOrder)
    {
      var p := players[roster[i]];
      data := data + [PlayerInfo(roster[i], p.name, p.joinOrder)];
      i := i + 1;
    }
  }

  /** `room_status`. */
  method RoomStatusOf(db: Db, roomCode: string) returns (out: Outcome<RoomStatus>)
    requires db.Valid()
    ensures out == StatusReply(db.Snapshot(), roomCode)
  {
    var t := db.Snapshot();
    var r := RoomByUrl(t, roomCode);
    if r.None? {
      return Err(NotFound);
    }
    var room := r.value;
    var playersData := CollectPlayers(db.players, PlayersOf(db.players, room));
    var views := ShownViews(t, room);
    var gs := CurrentGameState(db.gameStates, room);
    if gs.None? {
      out := Ok(RoomStatus(db.rooms[room].code, IsFull(db.players, room), db.rooms[room].isActive, false,
                           playersData, None, None, None, views.0, views.1, false, false));
    } else {
      var s := db.gameStates[gs.value];
      assert GameStateValid(db.players, s);
      out := Ok(RoomStatus(db.rooms[room].code, IsFull(db.players, room), db.rooms[room].isActive, true,
                           playersData, Some(s.round), TurnName(t, s), s.currentTurn, views.0, views.1,
                           s.waitingForQuestion, s.waitingForAnswer));
    }
  }

  // ----------------------------------------------------------------------
  // Standalone requests
  // ----------------------------------------------------------------------

  /** The record a standalone request is (re)set to: waiting, with no question yet. */
  function PendingRequest(userName: string, qtype: string): StandaloneRequest {
    StandaloneRequest(userName, Some(qtype), None, None, PENDING, true)
  }

  /** A request a moderator answered with `text` from `source`. */
  function ApprovedRequest(r: StandaloneRequest, text: string, source: Source): StandaloneRequest {
    r.(currentQuestion := Some(text), source := Some(source), status := APPROVED)
  }

  /**
   * The standalone lifecycle never leaves the valid records: a new request
   * is pending with no question, an approval is approved with a question
   * and its source, and a new request after an approval is pending again.
   */
  lemma LifecycleValid(name: string, qtype: string, text: string, source: Source, r: StandaloneRequest)
    requires IsCategory(qtype)
    ensures RequestValid(PendingRequest(name, qtype))
    ensures RequestValid(r) ==> RequestValid(ApprovedRequest(r, text, source))
    ensures ApprovedRequest(PendingRequest(name, qtype), text, source).status == APPROVED
    ensures ApprovedRequest(PendingRequest(name, qtype), text, source).currentQuestion == Some(text)
  {
  }

  /**
   * `request_standalone_question`: name, type and session id are stripped;
   * an empty name or a type other than "truth" or "dare" is 400; an empty
   * session id is replaced by `newSessionId` (a fresh UUID). The one record
   * of that session is created or reset to pending.
   */
  method RequestStandalone(db: Db, userName: string, questionType: string, sessionId: string, newSessionId: string)
    returns (out: Outcome<string>)
    requires db.Valid()
    modifies db
    ensures db.Valid()
    ensures var name, qtype := Strip(userName), Strip(questionType);
            var sid := if Strip(sessionId) == "" then newSessionId else Strip(sessionId);
            if name == "" || !IsCategory(qtype) then
              out == Err(BadRequest) && db.Snapshot() == old(db.Snapshot())
            else
              && out == Ok(sid)
              && db.Snapshot() == old(db.Snapshot()).(standalone :=
                   old(db.standalone)[sid := PendingRequest(name, qtype)])
  {
    var name, qtype, sid := Strip(userName), Strip(questionType), Strip(sessionId);
    if name == "" || !IsCategory(qtype) {
      return Err(BadRequest);
    }
    if sid == "" {
      sid := newSessionId;
    }
    RequestStoredValid(db.Snapshot(), sid, PendingRequest(name, qtype));
    if sid !in db.standalone {
      db.standalone := db.standalone[sid := PendingRequest(name, qtype)];
    } else {
      var r := db.standalone[sid];
      r := r.(userName := name, qtype := Some(qtype), status := PENDING);
      r := r.(currentQuestion := None, source := None, isActive := true);
      db.standalone := db.standalone[sid := r];
    }
    out := Ok(sid);
  }

  /** `get_standalone_status` (read only): the session's record, or 404. */
  function StandaloneStatus(t: Tables, sessionId: string): (out: Outcome<StandaloneRequest>)
    ensures out.Ok? <==> sessionId in t.standalone
    ensures out.Err? ==> out.status == NotFound
    ensures out.Ok? ==> out.value == t.standalone[sessionId]
  {
    if sessionId in t.standalone then Ok(t.standalone[sessionId]) else Err(NotFound)
  }

  /** Storing a valid record under a session keeps the store valid. */
  lemma RequestStoredValid(t: Tables, sid: string, r: StandaloneRequest)
    requires ValidTables(t) && RequestValid(r)
    ensures ValidTables(t.(standalone := t.standalone[sid := r]))
  {
  }

  /** A request is pending right after it is made, whatever the session held before. */
  lemma RequestThenStatus(t: Tables, sid: string, name: string, qtype: string)
    requires IsCategory(qtype)
    ensures var s := StandaloneStatus(t.(standalone := t.standalone[sid := PendingRequest(name, qtype)]), sid);
            && s.Ok? && s.value.status == PENDING && s.value.currentQuestion.None? && s.value.source.None?
            && s.value.isActive
  {
  }

  /**
   * `admin_send_api_question`: 404 for an unknown session; otherwise a
   * question of the requested type ("truth", anything else a dare) is
   * fetched with a new client and the request is approved with source API.
   */
  method AdminSendApiQuestion(db: Db, sessionId: string, cfg: Services.Settings, now: int, doneAt: int,
                              http: Services.HttpRequest -> Services.Response)
    returns (out: Outcome<StandaloneQuestion>)
    requires db.Valid()
    modifies db
    ensures db.Valid()
    ensures sessionId !in old(db.standalone) ==> out == Err(NotFound) && db.Snapshot() == old(db.Snapshot())
    ensures sessionId in old(db.standalone) ==>
              var r := old(db.standalone)[sessionId];
              var text := Services.FreshQuestionText(cfg, r.qtype.GetOr(""), http);
              && out == Ok(StandaloneQuestion(text, r.qtype, API))
              && db.Snapshot() == old(db.Snapshot()).(standalone :=
                   old(db.standalone)[sessionId := ApprovedRequest(r, text, API)])
  {
    if sessionId !in db.standalone {
      return Err(NotFound);
    }
    var r := db.standalone[sessionId];
    var text := Services.FetchWithNewClient(cfg, r.qtype.GetOr(""), now, doneAt, http);
    r := r.(currentQuestion := Some(text), source := Some(API), status := APPROVED);
    RequestStoredValid(db.Snapshot(), sessionId, r);
    db.standalone := db.standalone[sessionId := r];
    out := Ok(StandaloneQuestion(text, db.standalone[sessionId].qtype, API));
  }

  /**
   * `admin_inject_standalone_question`: 404 for an unknown session (checked
   * first); then the stripped text must not be empty and the type (default
   * "truth") must be "truth" or "dare", else 400; the request is approved
   * with the moderator's question, its type and source ADMIN.
   */
  method AdminInjectStandalone(db: Db, sessionId: string, questionText: string, questionType: Option<string>)
    returns (out: Outcome<StandaloneQuestion>)
    requires db.Valid()
    modifies db
    ensures db.Valid()
    ensures var text, qtype := Strip(questionText), questionType.GetOr("truth");
            if sessionId !in old(db.standalone) then out == Err(NotFound) && db.Snapshot() == old(db.Snapshot())
            else if text == "" || !IsCategory(qtype) then out == Err(BadRequest) && db.Snapshot() == old(db.Snapshot())
            else
              && out == Ok(StandaloneQuestion(text, Some(qtype), ADMIN))
              && db.Snapshot() == old(db.Snapshot()).(standalone := old(db.standalone)[sessionId :=
                   ApprovedRequest(old(db.standalone)[sessionId].(qtype := Some(qtype)), text, ADMIN)])
  {
    if sessionId !in db.standalone {
      return Err(NotFound);
    }
    var r := db.standalone[sessionId];
    var text, qtype := Strip(questionText), questionType.GetOr("truth");
    if text == "" || !IsCategory(qtype) {
      return Err(BadRequest);
    }
    r := r.(currentQuestion := Some(text), qtype := Some(qtype), source := Some(ADMIN), status := APPROVED);
    RequestStoredValid(db.Snapshot(), sessionId, r);
    db.standalone := db.standalone[sessionId := r];
    out := Ok(StandaloneQuestion(text, Some(qtype), ADMIN));
  }

  // ----------------------------------------------------------------------
  // Moderator question for a room
  // ----------------------------------------------------------------------

  /**
   * `admin_inject_question`: 404 for an unknown room; the stripped text must
   * not be empty and the type (default "truth") must be "truth" or "dare",
   * else 400; 500 when the room has no game. Otherwise the moderator's
   * question replaces whatever was open and becomes the current question.
   */
  method AdminInjectQuestion(db: Db, roomCode: string, questionText: string, questionType: Option<string>)
    returns (out: Outcome<QuestionInfo>)
    requires db.Valid()
    modifies db
    ensures db.Valid()
    ensures out.Err? ==> db.Snapshot() == old(db.Snapshot())
    ensures var t := old(db.Snapshot());
            var r := RoomByUrl(t, roomCode);
            var text, qtype := Strip(questionText), questionType.GetOr("truth");
            if r.None? then out == Err(NotFound)
            else if text == "" || !IsCategory(qtype) then out == Err(BadRequest)
            else if CurrentGameState(t.gameStates, r.value).None? then out == Err(ServerError)
            else
              && out == Ok(QuestionInfo(|t.questions|, text, qtype, ADMIN))
              && db.Snapshot() == Services.WithAdminQuestion(t, r.value, text, qtype).after
              && Services.CurrentQuestion(db.Snapshot(), r.value) == Some(|t.questions|)
  {
    var r := RoomByUrl(db.Snapshot(), roomCode);
    if r.None? {
      return Err(NotFound);
    }
    var text, qtype := Strip(questionText), questionType.GetOr("truth");
    if text == "" || !IsCategory(qtype) {
      return Err(BadRequest);
    }
    Services.WithAdminQuestionSound(db.Snapshot(), r.value, text, qtype);
    var q := Services.CreateAdminQuestion(db, r.value, text, qtype);
    if q.None? {
      return Err(ServerError);
    }
    var question := db.questions[q.value];
    out := Ok(QuestionInfo(q.value, question.text, question.qtype, question.source));
  }
}
