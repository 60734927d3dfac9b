/**
 * The records of the game (game/models.py) and the store that holds them.
 *
 * Every table is a sequence in creation order and a record's id is its
 * position in its table, so "newest first" orderings (`-created_at`) read the
 * table from the end. Saving a changed record is replacing it in its table.
 */
module Models {
  import opened Common

  // ----------------------------------------------------------------------
  // Records
  // ----------------------------------------------------------------------

  /** Where a question came from: the content API or a moderator. */
  datatype Source = API | ADMIN

  /** Lifecycle of a standalone request. */
  datatype Status = PENDING | APPROVED | COMPLETED

  datatype Room = Room(code: string, isActive: bool, createdBy: Option<string>)

  datatype Player = Player(name: string, room: nat, joinOrder: int)

  datatype GameState = GameState(
    room: nat,
    currentTurn: Option<nat>,
    round: int,
    currentChoice: Option<string>,
    waitingForQuestion: bool,
    waitingForAnswer: bool)

  datatype Question = Question(
    room: nat,
    gameState: nat,
    text: string,
    qtype: string,
    source: Source,
    isAnswered: bool)

  datatype Answer = Answer(question: nat, player: nat, text: string)

  datatype StandaloneRequest = StandaloneRequest(
    userName: string,
    qtype: Option<string>,
    currentQuestion: Option<string>,
    source: Option<Source>,
    status: Status,
    isActive: bool)

  /** The two categories a choice or a question type may name. */
  predicate IsCategory(s: string) {
    s == "truth" || s == "dare"
  }

  // ----------------------------------------------------------------------
  // Queries over a table
  // ----------------------------------------------------------------------

  /**
   * `Room.get_players()`: the positions of the room's players. The table
   * lists them in creation order, which PlayersValid makes the join order.
   */
  function PlayersOf(players: seq<Player>, room: nat): (ids: seq<nat>)
    ensures forall k :: 0 <= k < |ids| ==> ids[k] < |players| && players[ids[k]].room == room
    ensures forall p :: 0 <= p < |players| && players[p].room == room ==> p in ids
    ensures forall j, k :: 0 <= j < k < |ids| ==> ids[j] < ids[k]
  {
    if players == [] then []
    else
      var n := |players| - 1;
      PlayersOf(players[..n], room) + (if players[n].room == room then [n] else [])
  }

  /** A room nobody has joined has no players. */
  lemma {:induction false} PlayersOfNone(players: seq<Player>, room: nat)
    requires forall p :: 0 <= p < |players| ==> players[p].room != room
    ensures PlayersOf(players, room) == []
  {
    if players != [] {
      PlayersOfNone(players[..|players| - 1], room);
    }
  }

  /** `room.players.count()`. */
  function PlayerCount(players: seq<Player>, room: nat): nat {
    if players == [] then 0
    else PlayerCount(players[..|players| - 1], room) + (if players[|players| - 1].room == room then 1 else 0)
  }

  /** The count is the number of the room's players. */
  lemma {:induction false} PlayerCountIsRoster(players: seq<Player>, room: nat)
    ensures PlayerCount(players, room) == |PlayersOf(players, room)|
  {
    if players != [] {
      PlayerCountIsRoster(players[..|players| - 1], room);
    }
  }

  /** `Room.is_full()`. */
  function IsFull(players: seq<Player>, room: nat): bool {
    |PlayersOf(players, room)| >= 2
  }

  /** `Room.get_current_game_state()`: the room's newest game state. */
  function CurrentGameState(states: seq<GameState>, room: nat): (g: Option<nat>)
    ensures g.Some? ==> g.value < |states| && states[g.value].room == room
    ensures g.Some? ==> forall j :: g.value < j < |states| ==> states[j].room != room
    ensures g.None? ==> forall j :: 0 <= j < |states| ==> states[j].room != room
  {
    if states == [] then None
    else if states[|states| - 1].room == room then Some(|states| - 1)
    else CurrentGameState(states[..|states| - 1], room)
  }

  /** Replacing a game state by one of the same room changes no room's current game state. */
  lemma {:induction false} CurrentGameStateReplaced(states: seq<GameState>, g: nat, s: GameState, room: nat)
    requires g < |states| && s.room == states[g].room
    ensures CurrentGameState(states[g := s], room) == CurrentGameState(states, room)
  {
    var n := |states| - 1;
    if g < n {
      assert states[g := s][..n] == states[..n][g := s];
      CurrentGameStateReplaced(states[..n], g, s, room);
    } else {
      assert states[g := s][..n] == states[..n];
    }
  }

  /** The room whose code is `code`, if any (and only an active one if `activeOnly`). */
  function FindRoom(rooms: seq<Room>, code: string, activeOnly: bool): (r: Option<nat>)
    ensures r.Some? ==> r.value < |rooms| && rooms[r.value].code == code
    ensures r.Some? && activeOnly ==> rooms[r.value].isActive
    ensures r.None? ==> forall i :: 0 <= i < |rooms| && rooms[i].code == code ==> activeOnly && !rooms[i].isActive
  {
    if rooms == [] then None
    else
      var last := rooms[|rooms| - 1];
      if last.code == code && (last.isActive || !activeOnly) then Some(|rooms| - 1)
      else FindRoom(rooms[..|rooms| - 1], code, activeOnly)
  }

  /** The codes of all rooms, in creation order. */
  function Codes(rooms: seq<Room>): (codes: seq<string>)
    ensures |codes| == |rooms|
    ensures forall i :: 0 <= i < |rooms| ==> codes[i] == rooms[i].code
  {
    seq(|rooms|, i requires 0 <= i < |rooms| => rooms[i].code)
  }

  // ----------------------------------------------------------------------
  // Turns
  // ----------------------------------------------------------------------

  /**
   * `GameState.get_opponent()`: with exactly two players, the one who does
   * not hold the turn (the first player when nobody or a stranger holds it);
   * otherwise nobody.
   */
  function Opponent(roster: seq<nat>, current: Option<nat>): (o: Option<nat>)
    ensures |roster| != 2 <==> o.None?
    ensures o.Some? ==> o.value in roster
    ensures |roster| == 2 && roster[0] != roster[1] && current.Some? && current.value in roster ==>
              o.Some? && o != current
    ensures |roster| == 2 && (current.None? || current.value !in roster) ==> o == Some(roster[0])
  {
    if |roster| == 2 then
      if current == Some(roster[0]) then Some(roster[1]) else Some(roster[0])
    else None
  }

  /**
   * `GameState.switch_turn()`: with two players the turn passes to the
   * opponent, and the round grows by one exactly when the turn comes back to
   * the first player; with any other number of players nothing changes.
   */
  function Switched(s: GameState, roster: seq<nat>): (t: GameState)
    ensures |roster| != 2 ==> t == s
    ensures |roster| == 2 && roster[0] != roster[1] ==>
              && t.currentTurn == Opponent(roster, s.currentTurn)
              && t.round == (if t.currentTurn == Some(roster[0]) then s.round + 1 else s.round)
    ensures t == s.(currentTurn := t.currentTurn, round := t.round)
  {
    if |roster| == 2 then
      if s.currentTurn == Some(roster[0]) then s.(currentTurn := Some(roster[1]))
      else s.(currentTurn := Some(roster[0]), round := s.round + 1)
    else s
  }

  /** `n` switches in a row. */
  function SwitchedTimes(s: GameState, roster: seq<nat>, n: nat): GameState {
    if n == 0 then s else Switched(SwitchedTimes(s, roster, n - 1), roster)
  }

  /** Two switches from the first player come back to the first player, one round on. */
  lemma SwitchTwiceFromFirst(s: GameState, roster: seq<nat>)
    requires |roster| == 2 && roster[0] != roster[1]
    requires s.currentTurn == Some(roster[0])
    ensures Switched(s, roster).currentTurn == Some(roster[1])
    ensures Switched(s, roster).round == s.round
    ensures Switched(Switched(s, roster), roster).currentTurn == Some(roster[0])
    ensures Switched(Switched(s, roster), roster).round == s.round + 1
  {
  }

  /**
   * Strict alternation: starting from the first player, after `n` switches
   * the turn is with player `n % 2` and `n / 2` rounds have passed.
   */
  lemma {:induction false} Alternation(s: GameState, roster: seq<nat>, n: nat)
    requires |roster| == 2 && roster[0] != roster[1]
    requires s.currentTurn == Some(roster[0])
    ensures SwitchedTimes(s, roster, n).currentTurn == Some(roster[n % 2])
    ensures SwitchedTimes(s, roster, n).round == s.round + n / 2
  {
    if n > 0 {
      Alternation(s, roster, n - 1);
    }
  }

  // ----------------------------------------------------------------------
  // Room codes (Room.save)
  // ----------------------------------------------------------------------

  const CodeAlphabet: string := "ABCDEFGHIJKLMNOPQRSTUVWXYZ0123456789"
  const CodeLength: nat := 6
  const MaxAttempts: nat := 100

  /** Six characters of `string.ascii_uppercase + string.digits`. */
  predicate IsRoomCode(code: string) {
    |code| == CodeLength && forall i :: 0 <= i < |code| ==> code[i] in CodeAlphabet
  }

  /**
   * The code `random.choices(ascii_uppercase + digits, k=6)` yields on draw
   * number `attempt`, where `rand(k)` is the k-th random index drawn.
   */
  function Candidate(rand: nat -> nat, attempt: nat): (code: string)
    ensures IsRoomCode(code)
  {
    seq(CodeLength, i requires 0 <= i < CodeLength =>
      CodeAlphabet[rand(CodeLength * attempt + i) % |CodeAlphabet|])
  }

  /**
   * The code-assignment step of `Room.save()`: a room that has a code keeps
   * it; otherwise candidates are drawn until one is not an existing code, at
   * most MaxAttempts times, and if all of them collide one more code is drawn
   * and taken without a check.
   */
  method AssignCode(code: string, existing: seq<string>, rand: nat -> nat)
    returns (chosen: string, attempts: nat)
    ensures code != "" ==> chosen == code && attempts == 0
    ensures code == "" ==> IsRoomCode(chosen) && attempts <= MaxAttempts
    ensures code == "" ==> forall a :: 0 <= a < attempts ==> Candidate(rand, a) in existing
    ensures code == "" && attempts < MaxAttempts ==>
              chosen == Candidate(rand, attempts) && chosen !in existing
    ensures code == "" && attempts == MaxAttempts ==> chosen == Candidate(rand, MaxAttempts)
  {
    if code != "" {
      return code, 0;
    }
    attempts := 0;
    while attempts < MaxAttempts
      invariant attempts <= MaxAttempts
      invariant forall a :: 0 <= a < attempts ==> Candidate(rand, a) in existing
    {
      var candidate := Candidate(rand, attempts);
      if candidate !in existing {
        return candidate, attempts;
      }
      attempts := attempts + 1;
    }
    chosen := Candidate(rand, MaxAttempts);
  }

  // ----------------------------------------------------------------------
  // The store and its integrity
  // ----------------------------------------------------------------------

  datatype Tables = Tables(
    rooms: seq<Room>,
    players: seq<Player>,
    gameStates: seq<GameState>,
    questions: seq<Question>,
    answers: seq<Answer>,
    standalone: map<string, StandaloneRequest>)

  /** The store after an operation, and what the operation returned. */
  datatype Effect<T> = Effect(after: Tables, result: T)

  /** Room codes are well formed and unique (`code ... unique=True`). */
  ghost predicate RoomsValid(rooms: seq<Room>) {
    && (forall i :: 0 <= i < |rooms| ==> IsRoomCode(rooms[i].code))
    && (forall i, j :: 0 <= i < j < |rooms| ==> rooms[i].code != rooms[j].code)
  }

  /**
   * Every player belongs to a room, its join order is one more than the
   * number of players who joined that room before it and at most 2, and no
   * two players of a room share a name (`unique_together = ['room', 'name']`).
   */
  ghost predicate PlayersValid(roomCount: nat, players: seq<Player>) {
    && (forall p :: 0 <= p < |players| ==> players[p].room < roomCount)
    && JoinOrdersValid(players)
    && (forall p, q :: 0 <= p < q < |players| && players[p].room == players[q].room ==>
          players[p].name != players[q].name)
  }

  /**
   * Each player's join order is one more than the number of players who
   * joined its room before it, and at most 2.
   */
  ghost predicate JoinOrdersValid(players: seq<Player>) {
    players != [] ==>
      var n := |players| - 1;
      && JoinOrdersValid(players[..n])
      && players[n].joinOrder == PlayerCount(players[..n], players[n].room) + 1 <= 2
  }

  /** A game state belongs to a room of two players and one of them holds the turn. */
  ghost predicate GameStateValid(players: seq<Player>, s: GameState) {
    && |PlayersOf(players, s.room)| == 2
    && s.currentTurn.Some? && s.currentTurn.value in PlayersOf(players, s.room)
    && s.round >= 1
    && (s.currentChoice.None? || IsCategory(s.currentChoice.value))
    && !s.waitingForAnswer
  }

  /** Each room has at most one game state. */
  ghost predicate GameStatesValid(roomCount: nat, players: seq<Player>, states: seq<GameState>) {
    && (forall g :: 0 <= g < |states| ==> states[g].room < roomCount && GameStateValid(players, states[g]))
    && (forall g, h :: 0 <= g < h < |states| ==> states[g].room != states[h].room)
  }

  /** A question belongs to a game state of its own room. */
  ghost predicate QuestionsValid(states: seq<GameState>, questions: seq<Question>) {
    forall q :: 0 <= q < |questions| ==>
      questions[q].gameState < |states| && questions[q].room == states[questions[q].gameState].room
  }

  /**
   * An answer refers to an answered question and an existing player, and a
   * question has at most one answer (which implies
   * `unique_together = ['question', 'player']`).
   */
  ghost predicate AnswersValid(playerCount: nat, questions: seq<Question>, answers: seq<Answer>) {
    && (forall a :: 0 <= a < |answers| ==>
          answers[a].question < |questions| && answers[a].player < playerCount
          && questions[answers[a].question].isAnswered)
    && (forall a, b :: 0 <= a < b < |answers| ==> answers[a].question != answers[b].question)
  }

  /**
   * A standalone request names a category; a pending one carries no question,
   * an approved one carries a question and its source; none is COMPLETED.
   */
  predicate RequestValid(r: StandaloneRequest) {
    && r.qtype.Some? && IsCategory(r.qtype.value)
    && (r.status == PENDING ==> r.currentQuestion.None? && r.source.None?)
    && (r.status == APPROVED ==> r.currentQuestion.Some? && r.source.Some?)
    && r.status != COMPLETED
  }

  ghost predicate ValidTables(t: Tables) {
    && RoomsValid(t.rooms)
    && PlayersValid(|t.rooms|, t.players)
    && GameStatesValid(|t.rooms|, t.players, t.gameStates)
    && QuestionsValid(t.gameStates, t.questions)
    && AnswersValid(|t.players|, t.questions, t.answers)
    && (forall s :: s in t.standalone ==> RequestValid(t.standalone[s]))
  }

  /** Adding a valid game state for a room that has none keeps the store valid. */
  lemma GameStateAddedValid(t: Tables, s: GameState)
    requires ValidTables(t) && s.room < |t.rooms| && GameStateValid(t.players, s)
    requires forall g :: 0 <= g < |t.gameStates| ==> t.gameStates[g].room != s.room
    ensures ValidTables(t.(gameStates := t.gameStates + [s]))
  {
    var states := t.gameStates + [s];
    assert forall g :: 0 <= g < |t.gameStates| ==> states[g] == t.gameStates[g];
    assert QuestionsValid(states, t.questions);
    assert GameStatesValid(|t.rooms|, t.players, states);
  }

  /** Replacing a game state by a valid one of the same room keeps the store valid. */
  lemma GameStateReplacedValid(t: Tables, g: nat, s: GameState)
    requires ValidTables(t) && g < |t.gameStates|
    requires s.room == t.gameStates[g].room && GameStateValid(t.players, s)
    ensures ValidTables(t.(gameStates := t.gameStates[g := s]))
  {
    var states := t.gameStates[g := s];
    assert QuestionsValid(states, t.questions);
    assert GameStatesValid(|t.rooms|, t.players, states);
  }

  /** The record store: one table per model, the standalone requests keyed by session id. */
  class Db {
    var rooms: seq<Room>
    var players: seq<Player>
    var gameStates: seq<GameState>
    var questions: seq<Question>
    var answers: seq<Answer>
    var standalone: map<string, StandaloneRequest>

    function Snapshot(): Tables
      reads this
    {
      Tables(rooms, players, gameStates, questions, answers, standalone)
    }

    ghost predicate Valid()
      reads this
    {
      ValidTables(Snapshot())
    }

    constructor ()
      ensures Snapshot() == Tables([], [], [], [], [], map[])
      ensures Valid()
    {
      rooms, players, gameStates := [], [], [];
      questions, answers, standalone := [], [], map[];
    }

    /** `GameState.switch_turn()` followed by its save, on game state `g`. */
    method SwitchTurn(g: nat)
      requires Valid() && g < |gameStates|
      modifies this
      ensures Valid()
      ensures Snapshot() == old(Snapshot()).(gameStates :=
                old(gameStates)[g := Switched(old(gameStates[g]), PlayersOf(players, old(gameStates[g]).room))])
    {
      ghost var t := Snapshot();
      var s := gameStates[g];
      var roster := PlayersOf(players, s.room);
      assert GameStateValid(players, s);
      assert roster[0] < roster[1];
      GameStateReplacedValid(t, g, Switched(s, roster));
      gameStates := gameStates[g := Switched(s, roster)];
      assert Snapshot() == t.(gameStates := t.gameStates[g := Switched(s, roster)]);
    }
  }

  // ----------------------------------------------------------------------
  // Consequences of the integrity constraints
  // ----------------------------------------------------------------------

  lemma PlayersOfAppend(players: seq<Player>, p: Player, room: nat)
    ensures PlayersOf(players + [p], room) ==
            PlayersOf(players, room) + (if p.room == room then [|players|] else [])
  {
    assert (players + [p])[..|players|] == players;
  }

  /**
   * In a valid player table every room has at most two players and its
   * players, in table order, have join orders 1, 2: so table order is the
   * `order_by('join_order')` of `Room.get_players()`.
   */
  lemma {:induction false} RosterShape(players: seq<Player>, room: nat)
    requires JoinOrdersValid(players)
    ensures |PlayersOf(players, room)| <= 2
    ensures forall k :: 0 <= k < |PlayersOf(players, room)| ==>
              players[PlayersOf(players, room)[k]].joinOrder == k + 1
  {
    if players != [] {
      var n := |players| - 1;
      var init, last := players[..n], players[n];
      assert players == init + [last];
      RosterShape(init, room);
      PlayerCountIsRoster(init, room);
      PlayersOfAppend(init, last, room);
      var before, after := PlayersOf(init, room), PlayersOf(players, room);
      if last.room == room {
        assert last.joinOrder == |before| + 1 <= 2;
        assert after == before + [n];
      } else {
        assert after == before;
      }
      forall k | 0 <= k < |after| ensures players[after[k]].joinOrder == k + 1 {
        if k < |before| {
          assert after[k] == before[k] && players[before[k]] == init[before[k]];
        }
      }
    }
  }
}
