/**
 * The service layer (game/services.py): the content-API client with its
 * sliding-window rate limit and fallback questions, and the turn engine.
 *
 * The clock is an integer tick given by the caller; the HTTP client is an
 * oracle `http` from request to response, and every fetch also returns the
 * requests it sent, in order.
 */
module Services {
  import opened Common
  import opened Models

  // ----------------------------------------------------------------------
  // Content API client (APIQuestionService)
  // ----------------------------------------------------------------------

  /** The settings the client reads: base URL, rating, and the rate limit. */
  datatype Settings = Settings(
    baseUrl: string,
    rating: string,
    rateLimitRequests: int,
    rateLimitSeconds: int)

  /** `requests.get(url, params=params, timeout=5)`. */
  datatype HttpRequest = Get(url: string, params: map<string, string>)

  /**
   * What a GET can end in: any failure (network error, timeout, error status,
   * a body that is not JSON), or a JSON object whose "question" member may be
   * missing.
   */
  datatype Response = Failed | Json(question: Option<string>)

  /** What a fetch returns: the local fallback object, or the API's JSON object. */
  datatype ApiData = Fallback(qtype: string, text: string) | Fetched(question: Option<string>)

  const TruthFallback: string := "What is your biggest fear?"
  const DareFallback: string := "Do 10 jumping jacks."
  const NoQuestion: string := "No question available"

  /** `api_data.get('question', 'No question available')`. */
  function QuestionText(d: ApiData): string {
    match d
    case Fallback(_, q) => q
    case Fetched(q) => q.GetOr(NoQuestion)
  }

  /** The query parameters: the rating when one is configured. */
  function Params(rating: string): map<string, string> {
    if rating != "" then map["rating" := rating] else map[]
  }

  /**
   * The request-time window after the check at `now`: exactly the times `t`
   * with `now - t < window`, each as often as before, in their old order.
   */
  function Prune(times: seq<int>, now: int, window: int): (kept: seq<int>)
    ensures |kept| <= |times|
    ensures forall t :: t in kept <==> t in times && now - t < window
    ensures forall t :: multiset(kept)[t] == if now - t < window then multiset(times)[t] else 0
  {
    if times == [] then []
    else
      var head := if now - times[0] < window then [times[0]] else [];
      var kept := head + Prune(times[1..], now, window);
      assert times == [times[0]] + times[1..];
      assert multiset(kept) == multiset(head) + multiset(Prune(times[1..], now, window));
      kept
  }

  /** Pruning works element by element, so it keeps the order of the times. */
  lemma {:induction false} PruneConcat(a: seq<int>, b: seq<int>, now: int, window: int)
    ensures Prune(a + b, now, window) == Prune(a, now, window) + Prune(b, now, window)
  {
    if a == [] {
      assert a + b == b;
    } else {
      assert (a + b)[0] == a[0] && (a + b)[1..] == a[1..] + b;
      PruneConcat(a[1..], b, now, window);
    }
  }

  /** A later check prunes at least as much: checking at `now` and then at `later` is checking at `later`. */
  lemma {:induction false} PruneLater(times: seq<int>, now: int, later: int, window: int)
    requires now <= later
    ensures Prune(Prune(times, now, window), later, window) == Prune(times, later, window)
  {
    if times != [] {
      PruneLater(times[1..], now, later, window);
      var head := if now - times[0] < window then [times[0]] else [];
      PruneConcat(head, Prune(times[1..], now, window), later, window);
    }
  }

  /** The positions of the recorded times that lie within the window at `now`. */
  ghost function InWindow(times: seq<int>, now: int, window: int): set<int> {
    set i | 0 <= i < |times| && now - times[i] < window
  }

  /** Pruning keeps exactly as many times as there are requests within the window. */
  lemma {:induction false} PruneCount(times: seq<int>, now: int, window: int)
    ensures |Prune(times, now, window)| == |InWindow(times, now, window)|
  {
    if times != [] {
      var n := |times| - 1;
      var init := times[..n];
      assert times == init + [times[n]];
      PruneCount(init, now, window);
      PruneConcat(init, [times[n]], now, window);
      var before := InWindow(init, now, window);
      assert n !in before;
      if now - times[n] < window {
        assert InWindow(times, now, window) == before + {n};
      } else {
        assert InWindow(times, now, window) == before;
      }
    }
  }

  /** When at least `limit` of the recorded times lie within the window, the check refuses. */
  lemma SaturatedWindow(times: seq<int>, now: int, window: int, limit: int)
    requires limit <= |InWindow(times, now, window)|
    ensures !(|Prune(times, now, window)| < limit)
  {
    PruneCount(times, now, window);
  }

  lemma {:induction false} KeepAllRecent(times: seq<int>, now: int, window: int)
    requires forall i :: 0 <= i < |times| ==> now - times[i] < window
    ensures Prune(times, now, window) == times
  {
    if times != [] {
      KeepAllRecent(times[1..], now, window);
    }
  }

  /** `APIQuestionService`: the client and its list of request times. */
  class ApiQuestionService {
    const baseUrl: string
    const rating: string
    const rateLimitRequests: int
    const rateLimitSeconds: int
    var requestTimes: seq<int>

    constructor (cfg: Settings)
      ensures baseUrl == cfg.baseUrl && rating == cfg.rating
      ensures rateLimitRequests == cfg.rateLimitRequests && rateLimitSeconds == cfg.rateLimitSeconds
      ensures requestTimes == []
    {
      baseUrl, rating := cfg.baseUrl, cfg.rating;
      rateLimitRequests, rateLimitSeconds := cfg.rateLimitRequests, cfg.rateLimitSeconds;
      requestTimes := [];
    }

    /** `_check_rate_limit`: prunes the window, then allows a request while fewer than the limit remain. */
    method CheckRateLimit(now: int) returns (ok: bool)
      modifies this
      ensures requestTimes == Prune(old(requestTimes), now, rateLimitSeconds)
      ensures ok <==> |requestTimes| < rateLimitRequests
    {
      requestTimes := Prune(requestTimes, now, rateLimitSeconds);
      ok := |requestTimes| < rateLimitRequests;
    }

    /** `_record_request`. */
    method RecordRequest(now: int)
      modifies this
      ensures requestTimes == old(requestTimes) + [now]
    {
      requestTimes := requestTimes + [now];
    }

    /**
     * `fetch_truth_question`: when limited, the fallback and no request;
     * otherwise one GET of `/truth`, whose JSON object is returned and whose
     * time (`doneAt`) is recorded, or the fallback if it fails.
     */
    method FetchTruthQuestion(now: int, doneAt: int, http: HttpRequest -> Response)
      returns (data: ApiData, sent: seq<HttpRequest>)
      modifies this
      ensures var kept := Prune(old(requestTimes), now, rateLimitSeconds);
              var req := Get(baseUrl + "/truth", Params(rating));
              if |kept| >= rateLimitRequests then
                data == Fallback("truth", TruthFallback) && sent == [] && requestTimes == kept
              else
                && sent == [req]
                && (http(req).Failed? ==> data == Fallback("truth", TruthFallback) && requestTimes == kept)
                && (http(req).Json? ==> data == Fetched(http(req).question) && requestTimes == kept + [doneAt])
    {
      var ok := CheckRateLimit(now);
      if !ok {
        return Fallback("truth", TruthFallback), [];
      }
      var req := Get(baseUrl + "/truth", Params(rating));
      sent := [req];
      var response := http(req);
      match response
      case Failed =>
        data := Fallback("truth", TruthFallback);
      case Json(q) =>
        RecordRequest(doneAt);
        data := Fetched(q);
    }

    /**
     * `fetch_dare_question`: when limited, the fallback and no request;
     * otherwise GET `/api/dare`, then `/dare` if that fails; the first JSON
     * object wins and its time is recorded; if both fail, the fallback.
     */
    method FetchDareQuestion(now: int, doneAt: int, http: HttpRequest -> Response)
      returns (data: ApiData, sent: seq<HttpRequest>)
      modifies this
      ensures var kept := Prune(old(requestTimes), now, rateLimitSeconds);
              var first := Get(baseUrl + "/api/dare", Params(rating));
              var second := Get(baseUrl + "/dare", Params(rating));
              if |kept| >= rateLimitRequests then
                data == Fallback("dare", DareFallback) && sent == [] && requestTimes == kept
              else if http(first).Json? then
                data == Fetched(http(first).question) && sent == [first] && requestTimes == kept + [doneAt]
              else if http(second).Json? then
                data == Fetched(http(second).question) && sent == [first, second] && requestTimes == kept + [doneAt]
              else
                data == Fallback("dare", DareFallback) && sent == [first, second] && requestTimes == kept
    {
      var ok := CheckRateLimit(now);
      if !ok {
        return Fallback("dare", DareFallback), [];
      }
      var urls := [baseUrl + "/api/dare", baseUrl + "/dare"];
      var params := Params(rating);
      sent := [];
      var i := 0;
      while i < |urls|
        invariant 0 <= i <= |urls|
        invariant |sent| == i
        invariant forall k :: 0 <= k < i ==> sent[k] == Get(urls[k], params) && http(sent[k]).Failed?
        invariant requestTimes == Prune(old(requestTimes), now, rateLimitSeconds)
      {
        var req := Get(urls[i], params);
        sent := sent + [req];
        var response := http(req);
        if response.Json? {
          RecordRequest(doneAt);
          assert i == 1 ==> urls[0] == baseUrl + "/api/dare" && http(sent[0]).Failed?;
          return Fetched(response.question), sent;
        }
        i := i + 1;
      }
      assert http(sent[0]).Failed? && http(sent[1]).Failed?;
      data := Fallback("dare", DareFallback);
    }
  }

  /**
   * The question text a newly built client yields for `qtype` ("truth", or
   * anything else for a dare): such a client has an empty window, so it is
   * limited only when the limit is not positive.
   */
  function FreshQuestionText(cfg: Settings, qtype: string, http: HttpRequest -> Response): string {
    var params := Params(cfg.rating);
    if qtype == "truth" then
      if cfg.rateLimitRequests <= 0 then TruthFallback
      else match http(Get(cfg.baseUrl + "/truth", params))
        case Failed => TruthFallback
        case Json(q) => q.GetOr(NoQuestion)
    else
      if cfg.rateLimitRequests <= 0 then DareFallback
      else match http(Get(cfg.baseUrl + "/api/dare", params))
        case Json(q) => q.GetOr(NoQuestion)
        case Failed =>
          match http(Get(cfg.baseUrl + "/dare", params))
          case Failed => DareFallback
          case Json(q) => q.GetOr(NoQuestion)
  }


  // ----------------------------------------------------------------------
  // Turn engine (TurnManagementService)
  // ----------------------------------------------------------------------

  /** The game state `initialize_game` creates: first player to move, round 1. */
  function NewGame(room: nat, first: nat): GameState {
    GameState(room, Some(first), 1, None, false, false)
  }

  /** Question `q` belongs to game state `g` and is still unanswered. */
  predicate OpenIn(q: Question, g: nat) {
    q.gameState == g && !q.isAnswered
  }

  /** The unanswered questions of game state `g`, oldest first. */
  function Unanswered(questions: seq<Question>, g: nat): (ids: seq<nat>)
    ensures forall k :: 0 <= k < |ids| ==> ids[k] < |questions| && OpenIn(questions[ids[k]], g)
    ensures forall q :: 0 <= q < |questions| && OpenIn(questions[q], g) ==> q in ids
    ensures forall j, k :: 0 <= j < k < |ids| ==> ids[j] < ids[k]
  {
    if questions == [] then []
    else
      var n := |questions| - 1;
      Unanswered(questions[..n], g) + (if OpenIn(questions[n], g) then [n] else [])
  }

  /** The newest unanswered question of game state `g`. */
  function LastOpen(questions: seq<Question>, g: nat): (k: Option<nat>)
    ensures k.Some? ==> k.value < |questions| && OpenIn(questions[k.value], g)
    ensures k.Some? ==> forall j :: k.value < j < |questions| ==> !OpenIn(questions[j], g)
    ensures k.None? ==> forall j :: 0 <= j < |questions| ==> !OpenIn(questions[j], g)
  {
    if questions == [] then None
    else if OpenIn(questions[|questions| - 1], g) then Some(|questions| - 1)
    else LastOpen(questions[..|questions| - 1], g)
  }

  /**
   * `get_current_question`: the newest unanswered question of the room's
   * current game state; none if the room has no game state or that game
   * state has no unanswered question.
   */
  function CurrentQuestion(t: Tables, room: nat): (q: Option<nat>)
    ensures q.Some? ==> CurrentGameState(t.gameStates, room).Some?
    ensures q.Some? ==> q.value < |t.questions|
                        && OpenIn(t.questions[q.value], CurrentGameState(t.gameStates, room).value)
    ensures q.Some? ==> forall j :: q.value < j < |t.questions| ==>
                          !OpenIn(t.questions[j], CurrentGameState(t.gameStates, room).value)
    ensures q.None? && CurrentGameState(t.gameStates, room).Some? ==>
              forall j :: 0 <= j < |t.questions| ==>
                !OpenIn(t.questions[j], CurrentGameState(t.gameStates, room).value)
  {
    match CurrentGameState(t.gameStates, room)
    case None => None
    case Some(g) => LastOpen(t.questions, g)
  }

  /** The bulk `.update(is_answered=True)` on the questions of game state `g`. */
  function MarkAnswered(questions: seq<Question>, g: nat): (r: seq<Question>)
    ensures |r| == |questions|
    ensures forall k :: 0 <= k < |r| ==> r[k] == questions[k].(isAnswered := r[k].isAnswered)
    ensures forall k :: 0 <= k < |r| && questions[k].gameState == g ==> r[k].isAnswered
    ensures forall k :: 0 <= k < |r| && questions[k].gameState != g ==> r[k] == questions[k]
  {
    seq(|questions|, k requires 0 <= k < |questions| =>
      if questions[k].gameState == g then questions[k].(isAnswered := true) else questions[k])
  }

  /** `initialize_game` on a store. */
  function Initialized(t: Tables, room: nat): Effect<Option<nat>> {
    var roster := PlayersOf(t.players, room);
    if |roster| != 2 then Effect(t, None)
    else match CurrentGameState(t.gameStates, room)
      case Some(g) => Effect(t, Some(g))
      case None => Effect(t.(gameStates := t.gameStates + [NewGame(room, roster[0])]), Some(|t.gameStates|))
  }

  /**
   * `initialize_game` yields a game state exactly when the room has two
   * players; it is then the room's current game state, and the store stays
   * valid.
   */
  lemma InitializedSound(t: Tables, room: nat)
    requires ValidTables(t) && room < |t.rooms|
    ensures var e := Initialized(t, room);
            && ValidTables(e.after)
            && (e.result.Some? <==> |PlayersOf(t.players, room)| == 2)
            && (e.result.Some? ==> e.result == CurrentGameState(e.after.gameStates, room))
            && e.after.(gameStates := t.gameStates) == t
            && (e.result.None? || CurrentGameState(t.gameStates, room).Some? ==> e.after == t)
            && (e.result.Some? && CurrentGameState(t.gameStates, room).Some? ==>
                  e.result == CurrentGameState(t.gameStates, room))
            && (e.result.Some? && CurrentGameState(t.gameStates, room).None? ==>
                  var first := PlayersOf(t.players, room)[0];
                  && t.players[first].joinOrder == 1
                  && e.after.gameStates == t.gameStates + [NewGame(room, first)]
                  && e.after.gameStates[e.result.value].currentTurn == Some(first)
                  && e.after.gameStates[e.result.value].round == 1)
  {
    var roster := PlayersOf(t.players, room);
    if |roster| == 2 && CurrentGameState(t.gameStates, room).None? {
      RosterShape(t.players, room);
      GameStateAddedValid(t, NewGame(room, roster[0]));
    }
  }

  /** A second `initialize_game` finds the game state the first one returned and changes nothing. */
  lemma InitializedIdempotent(t: Tables, room: nat)
    ensures var e := Initialized(t, room);
            Initialized(e.after, room) == e
  {
  }

  /** Builds a new client, fetches a question of `qtype`, and returns its text. */
  method FetchWithNewClient(cfg: Settings, qtype: string, now: int, doneAt: int, http: HttpRequest -> Response)
    returns (text: string)
    ensures text == FreshQuestionText(cfg, qtype, http)
  {
    var api := new ApiQuestionService(cfg);
    var data, sent;
    if qtype == "truth" {
      data, sent := api.FetchTruthQuestion(now, doneAt, http);
    } else {
      data, sent := api.FetchDareQuestion(now, doneAt, http);
    }
    text := QuestionText(data);
  }

  /** `create_question_from_api` once the text is fetched: a new unanswered question for the current game state. */
  function WithQuestion(t: Tables, room: nat, text: string, qtype: string, source: Source): Effect<Option<nat>> {
    match CurrentGameState(t.gameStates, room)
    case None => Effect(t, None)
    case Some(g) => Effect(t.(questions := t.questions + [Question(room, g, text, qtype, source, false)]), Some(|t.questions|))
  }

  /**
   * A new question, unanswered and of the current game state, is appended
   * after the earlier ones and is the room's current question from then on;
   * nothing but the question table changes, and the store stays valid.
   */
  lemma WithQuestionSound(t: Tables, room: nat, text: string, qtype: string, source: Source)
    requires ValidTables(t)
    ensures var e := WithQuestion(t, room, text, qtype, source);
            && ValidTables(e.after)
            && (e.result.None? <==> CurrentGameState(t.gameStates, room).None?)
            && e.after.(questions := t.questions) == t
            && (e.result.Some? ==> CurrentQuestion(e.after, room) == e.result
                                   && e.after.questions[e.result.value].text == text)
            && (e.result.Some? ==>
                  e.after.questions == t.questions +
                    [Question(room, CurrentGameState(t.gameStates, room).value, text, qtype, source, false)])
  {
    var e := WithQuestion(t, room, text, qtype, source);
    if e.result.Some? {
      var qs := e.after.questions;
      assert forall k :: 0 <= k < |t.questions| ==> qs[k] == t.questions[k];
      QuestionsGrownValid(t, qs);
    }
  }

  /**
   * A question table that keeps every question's game state and room, never
   * clears an answered flag, and only adds questions of existing game states
   * of their own room, keeps the store valid.
   */
  lemma QuestionsGrownValid(t: Tables, qs: seq<Question>)
    requires ValidTables(t) && |t.questions| <= |qs|
    requires forall k :: 0 <= k < |t.questions| ==>
               && qs[k].gameState == t.questions[k].gameState && qs[k].room == t.questions[k].room
               && (t.questions[k].isAnswered ==> qs[k].isAnswered)
    requires forall k :: |t.questions| <= k < |qs| ==>
               qs[k].gameState < |t.gameStates| && qs[k].room == t.gameStates[qs[k].gameState].room
    ensures ValidTables(t.(questions := qs))
  {
  }

  /**
   * `create_admin_question`: every unanswered question of the current game
   * state is marked answered, then a new moderator question is added.
   */
  function WithAdminQuestion(t: Tables, room: nat, text: string, qtype: string): Effect<Option<nat>> {
    match CurrentGameState(t.gameStates, room)
    case None => Effect(t, None)
    case Some(g) =>
      Effect(t.(questions := MarkAnswered(t.questions, g) + [Question(room, g, text, qtype, ADMIN, false)]),
             Some(|t.questions|))
  }

  /**
   * After a moderator question, it is the only unanswered question of the
   * current game state (so it is the current question), only that game
   * state's questions changed, and the store stays valid.
   */
  lemma WithAdminQuestionSound(t: Tables, room: nat, text: string, qtype: string)
    requires ValidTables(t)
    ensures var e := WithAdminQuestion(t, room, text, qtype);
            && ValidTables(e.after)
            && (e.result.None? <==> CurrentGameState(t.gameStates, room).None?)
            && e.after.(questions := t.questions) == t
            && (e.result.Some? ==>
                  && |e.after.questions| == |t.questions| + 1
                  && (forall k :: 0 <= k < |t.questions| ==>
                        e.after.questions[k] ==
                          if t.questions[k].gameState == CurrentGameState(t.gameStates, room).value
                          then t.questions[k].(isAnswered := true) else t.questions[k])
                  && Unanswered(e.after.questions, CurrentGameState(t.gameStates, room).value) == [e.result.value]
                  && CurrentQuestion(e.after, room) == e.result
                  && e.after.questions[e.result.value].source == ADMIN)
  {
    var e := WithAdminQuestion(t, room, text, qtype);
    if e.result.Some? {
      var g := CurrentGameState(t.gameStates, room).value;
      var marked := MarkAnswered(t.questions, g);
      var qs := e.after.questions;
      assert forall k :: 0 <= k < |t.questions| ==> qs[k] == marked[k];
      QuestionsGrownValid(t, qs);
      OnlyLastOpen(qs, g);
    }
  }

  /** When only the last question of `g` is open, it is the only unanswered one. */
  lemma OnlyLastOpen(questions: seq<Question>, g: nat)
    requires questions != [] && OpenIn(questions[|questions| - 1], g)
    requires forall k :: 0 <= k < |questions| - 1 ==> !OpenIn(questions[k], g)
    ensures Unanswered(questions, g) == [|questions| - 1]
  {
    var n := |questions| - 1;
    NoneOpen(questions[..n], g);
  }

  lemma {:induction false} NoneOpen(questions: seq<Question>, g: nat)
    requires forall k :: 0 <= k < |questions| ==> !OpenIn(questions[k], g)
    ensures Unanswered(questions, g) == []
  {
    if questions != [] {
      NoneOpen(questions[..|questions| - 1], g);
    }
  }

  /**
   * `submit_answer`: the player's answer to the current question is added,
   * the question is marked answered and the game state stops waiting for an
   * answer; without a game state or a current question nothing happens.
   */
  function Answered(t: Tables, room: nat, player: nat, text: string): Effect<Option<nat>> {
    match CurrentGameState(t.gameStates, room)
    case None => Effect(t, None)
    case Some(g) =>
      match CurrentQuestion(t, room)
      case None => Effect(t, None)
      case Some(q) =>
        Effect(t.(answers := t.answers + [Answer(q, player, text)],
                  questions := t.questions[q := t.questions[q].(isAnswered := true)],
                  gameStates := t.gameStates[g := t.gameStates[g].(waitingForAnswer := false)]),
               Some(|t.answers|))
  }

  /**
   * Answering stores exactly one answer, to the question that was current,
   * which is then answered; the turn, the round and the choice of every game
   * state stay as they were (the turn passes only on `next_round`); the store
   * stays valid, in particular no question ever gets a second answer.
   */
  lemma AnsweredSound(t: Tables, room: nat, player: nat, text: string)
    requires ValidTables(t) && player < |t.players|
    ensures var e := Answered(t, room, player, text);
            && ValidTables(e.after)
            && (e.result.None? <==> CurrentQuestion(t, room).None?)
            && (e.result.None? ==> e.after == t)
            && (e.result.Some? ==>
                  && e.after.answers == t.answers + [Answer(CurrentQuestion(t, room).value, player, text)]
                  && e.after.questions == t.questions[CurrentQuestion(t, room).value :=
                                               t.questions[CurrentQuestion(t, room).value].(isAnswered := true)])
            && |e.after.gameStates| == |t.gameStates|
            && (forall g :: 0 <= g < |t.gameStates| ==>
                  e.after.gameStates[g] == t.gameStates[g].(waitingForAnswer := e.after.gameStates[g].waitingForAnswer))
            && e.after.rooms == t.rooms && e.after.players == t.players && e.after.standalone == t.standalone
  {
    var e := Answered(t, room, player, text);
    match CurrentGameState(t.gameStates, room)
    case None =>
      assert e == Effect(t, None);
    case Some(g) =>
      match CurrentQuestion(t, room)
      case None =>
        assert e == Effect(t, None);
      case Some(q) =>
        var states := t.gameStates[g := t.gameStates[g].(waitingForAnswer := false)];
        var questions := t.questions[q := t.questions[q].(isAnswered := true)];
        assert e == Effect(t.(answers := t.answers + [Answer(q, player, text)], questions := questions,
                              gameStates := states), Some(|t.answers|));
        AnswerAddedValid(t, q, player, text, g);
        assert forall k :: 0 <= k < |t.gameStates| ==>
                 states[k] == t.gameStates[k].(waitingForAnswer := states[k].waitingForAnswer);
  }

  lemma AnswerAddedValid(t: Tables, q: nat, player: nat, text: string, g: nat)
    requires ValidTables(t)
    requires q < |t.questions| && !t.questions[q].isAnswered && player < |t.players| && g < |t.gameStates|
    ensures ValidTables(t.(
              answers := t.answers + [Answer(q, player, text)],
              questions := t.questions[q := t.questions[q].(isAnswered := true)],
              gameStates := t.gameStates[g := t.gameStates[g].(waitingForAnswer := false)]))
  {
    var questions := t.questions[q := t.questions[q].(isAnswered := true)];
    var states := t.gameStates[g := t.gameStates[g].(waitingForAnswer := false)];
    AnswerRecordedValid(|t.players|, t.questions, t.answers, q, player, text);
    assert QuestionsValid(states, questions);
    assert GameStatesValid(|t.rooms|, t.players, states);
  }

  /** Recording the first answer to a question, and marking it answered, keeps the answers consistent. */
  lemma AnswerRecordedValid(playerCount: nat, questions: seq<Question>, answers: seq<Answer>,
                            q: nat, player: nat, text: string)
    requires AnswersValid(playerCount, questions, answers)
    requires q < |questions| && !questions[q].isAnswered && player < playerCount
    ensures AnswersValid(playerCount, questions[q := questions[q].(isAnswered := true)],
                         answers + [Answer(q, player, text)])
  {
    assert forall a :: 0 <= a < |answers| ==> answers[a].question != q;
  }

  /** `next_round`: the turn switches, the game state stops waiting for a question and forgets the choice. */
  function Advanced(t: Tables, room: nat): Effect<Option<nat>> {
    match CurrentGameState(t.gameStates, room)
    case None => Effect(t, None)
    case Some(g) =>
      var s := Switched(t.gameStates[g], PlayersOf(t.players, room));
      Effect(t.(gameStates := t.gameStates[g := s.(waitingForQuestion := false, currentChoice := None)]), Some(g))
  }

  /**
   * `next_round` passes the turn to the other player of the room, adds a
   * round exactly when the turn comes back to the first player, clears the
   * choice, and keeps the store valid.
   */
  lemma AdvancedSound(t: Tables, room: nat)
    requires ValidTables(t)
    ensures var e := Advanced(t, room);
            && ValidTables(e.after)
            && e.result == CurrentGameState(t.gameStates, room)
            && e.after.(gameStates := t.gameStates) == t
            && |e.after.gameStates| == |t.gameStates|
            && (forall k :: 0 <= k < |t.gameStates| && Some(k) != e.result ==>
                  e.after.gameStates[k] == t.gameStates[k])
            && (e.result.Some? ==>
                  var roster := PlayersOf(t.players, room);
                  var before := t.gameStates[e.result.value];
                  var now := e.after.gameStates[e.result.value];
                  && |roster| == 2 && roster[0] != roster[1]
                  && now.currentTurn.Some? && now.currentTurn.value in roster && now.currentTurn != before.currentTurn
                  && now.round == (if now.currentTurn == Some(roster[0]) then before.round + 1 else before.round)
                  && now.currentChoice.None? && !now.waitingForQuestion)
  {
    var e := Advanced(t, room);
    if e.result.Some? {
      var g := e.result.value;
      var roster := PlayersOf(t.players, room);
      assert GameStateValid(t.players, t.gameStates[g]);
      assert roster[0] < roster[1];
      GameStateReplacedValid(t, g, e.after.gameStates[g]);
    }
  }

  /** Two `next_round`s from the first player's turn bring it back to that player, one round later. */
  lemma {:induction false} AdvancedTwice(t: Tables, room: nat)
    requires ValidTables(t)
    requires CurrentGameState(t.gameStates, room).Some?
    requires t.gameStates[CurrentGameState(t.gameStates, room).value].currentTurn == Some(PlayersOf(t.players, room)[0])
    ensures var g := CurrentGameState(t.gameStates, room).value;
            var t2 := Advanced(Advanced(t, room).after, room).after;
            && t2.gameStates[g].currentTurn == t.gameStates[g].currentTurn
            && t2.gameStates[g].round == t.gameStates[g].round + 1
  {
    AdvancedSound(t, room);
    var t1 := Advanced(t, room).after;
    AdvancedSound(t1, room);
  }

  /** `TurnManagementService.initialize_game`. */
  method InitializeGame(db: Db, room: nat) returns (g: Option<nat>)
    requires db.Valid() && room < |db.rooms|
    modifies db
    ensures db.Valid()
    ensures Effect(db.Snapshot(), g) == Initialized(old(db.Snapshot()), room)
  {
    InitializedSound(db.Snapshot(), room);
    var roster := PlayersOf(db.players, room);
    if |roster| != 2 {
      return None;
    }
    var existing := CurrentGameState(db.gameStates, room);
    if existing.Some? {
      return existing;
    }
    db.gameStates := db.gameStates + [NewGame(room, roster[0])];
    g := Some(|db.gameStates| - 1);
  }

  /** `TurnManagementService.create_question_from_api`, with a client built for the call. */
  method CreateQuestionFromApi(db: Db, room: nat, qtype: string, cfg: Settings,
                               now: int, doneAt: int, http: HttpRequest -> Response)
    returns (q: Option<nat>)
    requires db.Valid()
    modifies db
    ensures db.Valid()
    ensures Effect(db.Snapshot(), q) ==
              WithQuestion(old(db.Snapshot()), room, FreshQuestionText(cfg, qtype, http), qtype, API)
  {
    var current := CurrentGameState(db.gameStates, room);
    if current.None? {
      return None;
    }
    var text := FetchWithNewClient(cfg, qtype, now, doneAt, http);
    WithQuestionSound(db.Snapshot(), room, text, qtype, API);
    db.questions := db.questions + [Question(room, current.value, text, qtype, API, false)];
    q := Some(|db.questions| - 1);
  }

  /** `TurnManagementService.create_admin_question`. */
  method CreateAdminQuestion(db: Db, room: nat, text: string, qtype: string) returns (q: Option<nat>)
    requires db.Valid()
    modifies db
    ensures db.Valid()
    ensures Effect(db.Snapshot(), q) == WithAdminQuestion(old(db.Snapshot()), room, text, qtype)
  {
    WithAdminQuestionSound(db.Snapshot(), room, text, qtype);
    var current := CurrentGameState(db.gameStates, room);
    if current.None? {
      return None;
    }
    db.questions := MarkAnswered(db.questions, current.value);
    db.questions := db.questions + [Question(room, current.value, text, qtype, ADMIN, false)];
    q := Some(|db.questions| - 1);
  }

  /** `TurnManagementService.submit_answer`. */
  method SubmitAnswer(db: Db, room: nat, player: nat, text: string) returns (a: Option<nat>)
    requires db.Valid() && player < |db.players|
    modifies db
    ensures db.Valid()
    ensures Effect(db.Snapshot(), a) == Answered(old(db.Snapshot()), room, player, text)
  {
    var current := CurrentGameState(db.gameStates, room);
    if current.None? {
      return None;
    }
    var question := CurrentQuestion(db.Snapshot(), room);
    if question.None? {
      return None;
    }
    var g, q := current.value, question.value;
    AnswerAddedValid(db.Snapshot(), q, player, text, g);
    db.answers := db.answers + [Answer(q, player, text)];
    db.questions := db.questions[q := db.questions[q].(isAnswered := true)];
    db.gameStates := db.gameStates[g := db.gameStates[g].(waitingForAnswer := false)];
    a := Some(|db.answers| - 1);
  }

  /** `TurnManagementService.next_round`. */
  method NextRound(db: Db, room: nat) returns (g: Option<nat>)
    requires db.Valid()
    modifies db
    ensures db.Valid()
    ensures Effect(db.Snapshot(), g) == Advanced(old(db.Snapshot()), room)
  {
    g := CurrentGameState(db.gameStates, room);
    if g.None? {
      return;
    }
    db.SwitchTurn(g.value);
    var s := db.gameStates[g.value].(waitingForQuestion := false, currentChoice := None);
    GameStateReplacedValid(db.Snapshot(), g.value, s);
    db.gameStates := db.gameStates[g.value := s];
  }
}
