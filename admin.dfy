/**
 * The moderator's list columns (game/admin.py): text previews cut to fifty
 * characters, and the room list's player count, round, turn holder and
 * injection button. A column shows either a value or `-`.
 */
module Admin {
  import opened Common
  import opened Models

  /** A list cell: a value, or the `-` placeholder. */
  datatype Cell<T> = Shown(value: T) | Dash

  // ----------------------------------------------------------------------
  // Previews
  // ----------------------------------------------------------------------

  /** How many characters a preview keeps of a longer text. */
  const PreviewLength := 50

  /**
   * The preview of a text (`QuestionAdmin.text_preview` of a question's
   * text, `AnswerAdmin.answer_preview` of an answer's): short texts whole,
   * longer ones cut to their first fifty characters followed by `...`.
   */
  function Preview(s: string): (p: string)
    ensures |s| <= PreviewLength ==> p == s
    ensures |s| > PreviewLength ==> |p| == PreviewLength + 3 && p[..PreviewLength] == s[..PreviewLength]
                                    && p[PreviewLength..] == "..."
  {
    if |s| > PreviewLength then s[..PreviewLength] + "..." else s
  }

  /** Previewing a preview changes nothing. */
  lemma PreviewIdempotent(s: string)
    ensures Preview(Preview(s)) == Preview(s)
  {
    if |s| > PreviewLength {
      assert Preview(s)[..PreviewLength] == s[..PreviewLength];
    }
  }

  /** A preview is at most 53 characters, is empty only for an empty text, and starts like the text. */
  lemma PreviewShape(s: string)
    ensures |Preview(s)| <= PreviewLength + 3
    ensures Preview(s) == [] <==> s == []
    ensures forall i :: 0 <= i < |Preview(s)| && i < |s| && i < PreviewLength ==> Preview(s)[i] == s[i]
  {
    if |s| > PreviewLength {
      assert forall i :: 0 <= i < PreviewLength ==> Preview(s)[i] == Preview(s)[..PreviewLength][i];
    }
  }

  /** `StandaloneRequestAdmin.question_preview`: `-` when there is no question or it is empty. */
  function QuestionPreview(r: StandaloneRequest): (p: string)
    ensures r.currentQuestion.None? || r.currentQuestion.value == "" ==> p == "-"
    ensures r.currentQuestion.Some? && r.currentQuestion.value != "" ==> p == Preview(r.currentQuestion.value)
  {
    if r.currentQuestion.Some? && r.currentQuestion.value != "" then Preview(r.currentQuestion.value) else "-"
  }

  /**
   * A pending request always shows `-`; an approved one with a question
   * shows its preview; the column is never empty.
   */
  lemma QuestionPreviewByStatus(r: StandaloneRequest)
    requires RequestValid(r)
    ensures r.status == PENDING ==> QuestionPreview(r) == "-"
    ensures r.status == APPROVED && r.currentQuestion.value != "" ==>
              QuestionPreview(r) == Preview(r.currentQuestion.value)
    ensures QuestionPreview(r) != ""
  {
    if r.currentQuestion.Some? && r.currentQuestion.value != "" {
      PreviewShape(r.currentQuestion.value);
    }
  }

  // ----------------------------------------------------------------------
  // Room list
  // ----------------------------------------------------------------------

  /** `RoomAdmin.player_count`: the number of the room's players. */
  function PlayerCountColumn(t: Tables, room: nat): (n: nat)
    ensures n == |PlayersOf(t.players, room)|
  {
    PlayerCountIsRoster(t.players, room);
    PlayerCount(t.players, room)
  }

  /** `RoomAdmin.current_round`: the round of the room's current game state, or `-` without one. */
  function CurrentRound(t: Tables, room: nat): (c: Cell<int>)
    ensures c.Dash? <==> CurrentGameState(t.gameStates, room).None?
    ensures c.Shown? ==> c.value == t.gameStates[CurrentGameState(t.gameStates, room).value].round
  {
    match CurrentGameState(t.gameStates, room)
    case None => Dash
    case Some(g) => Shown(t.gameStates[g].round)
  }

  /**
   * `RoomAdmin.current_player`: the name of the player whose turn it is in
   * the room's current game state, or `-` without a game state or a turn
   * holder.
   */
  function CurrentPlayer(t: Tables, room: nat): (c: Cell<string>)
    requires ValidTables(t)
    ensures c.Shown? ==> CurrentGameState(t.gameStates, room).Some?
    ensures c.Shown? ==>
              var s := t.gameStates[CurrentGameState(t.gameStates, room).value];
              s.currentTurn.Some? && c.value == t.players[s.currentTurn.value].name
  {
    match CurrentGameState(t.gameStates, room)
    case None => Dash
    case Some(g) =>
      var s := t.gameStates[g];
      if s.currentTurn.Some? then Shown(t.players[s.currentTurn.value].name) else Dash
  }

  /**
   * In a consistent store the two columns agree: a room shows a turn holder
   * exactly when it shows a round, the round is at least 1, and the turn
   * holder is one of the room's two players.
   */
  lemma PlayerShownWithRound(t: Tables, room: nat)
    requires ValidTables(t)
    ensures CurrentPlayer(t, room).Shown? <==> CurrentRound(t, room).Shown?
    ensures CurrentRound(t, room).Shown? ==> CurrentRound(t, room).value >= 1
    ensures CurrentPlayer(t, room).Shown? ==>
              exists p :: p in PlayersOf(t.players, room) && t.players[p].name == CurrentPlayer(t, room).value
  {
    var g := CurrentGameState(t.gameStates, room);
    if g.Some? {
      var s := t.gameStates[g.value];
      assert GameStateValid(t.players, s);
      assert s.currentTurn.value in PlayersOf(t.players, room);
    }
  }

  /**
   * `RoomAdmin.action_buttons`: the injection button, which passes the
   * room's code to `injectQuestion`, for an active room with exactly two
   * players; `-` otherwise.
   */
  function ActionButton(t: Tables, room: nat): (c: Cell<string>)
    requires room < |t.rooms|
    ensures c.Shown? <==> t.rooms[room].isActive && |PlayersOf(t.players, room)| == 2
    ensures c.Shown? ==> c.value == t.rooms[room].code
  {
    if t.rooms[room].isActive && PlayerCountColumn(t, room) == 2 then Shown(t.rooms[room].code) else Dash
  }

  /** In a consistent store, every active room with a game in progress offers the injection button. */
  lemma GameOffersButton(t: Tables, room: nat)
    requires ValidTables(t) && room < |t.rooms| && t.rooms[room].isActive
    requires CurrentRound(t, room).Shown?
    ensures ActionButton(t, room) == Shown(t.rooms[room].code)
  {
    var g := CurrentGameState(t.gameStates, room).value;
    assert GameStateValid(t.players, t.gameStates[g]);
  }
}
