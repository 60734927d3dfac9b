# Truth or dare: a verified model of the game core

This project models, in Dafny, the core of a two-player truth-or-dare web game:

- the record store of rooms, players, game states, questions, answers and standalone requests;
- the turn engine that starts a game, creates questions, records answers and passes the turn;
- the rate-limited question client with its fixed fallback questions;
- the JSON request handlers;
- the moderator's list columns;
- the moderator's question-injection script.

It also proves the properties the game relies on. The project has seven modules:

- `Common` (common.dfy): `Option`, and `Outcome`, which is a value or an HTTP error status.
- `Text` (text.dfy): Python `str.strip()` and `str.upper()`, and JavaScript `trim()` and `toLowerCase()`.
- `Models` (models.dfy): the records, the queries over tables, turn switching and room-code assignment. It also holds the class `Db`, the store whose tables are sequences in creation order. A record's id is its position in its table, so "newest first" reads a table from the end. The integrity constraints are collected in `ValidTables`. They cover unique codes, at most two players per room with join orders 1 and 2, unique names per room, at most one game state per room, and at most one answer per question.
- `Services` (services.dfy): the class `ApiQuestionService`, with its list of request times, and the turn engine. Each turn-engine operation has two parts. A specification function returns the new tables and the result. The method that performs the change is proved equal to that function and to keep `Db.Valid()`. Soundness lemmas state what each function promises.
- `Views` (views.dfy): each handler is a method returning `Ok(body)` or `Err(status)`, and every rejection leaves the store as it was.
- `Admin` (admin.dfy): the list columns. A cell is a value or `-`.
- `InjectQuestion` (inject_question.dfy):
  - `getCookie` is a loop with `break`, proved equal to a lookup function.
  - `decodeURIComponent` percent-decodes (section 2.1 of RFC 3986) and reads the octets as UTF-8. Its round trip with percent-encoding is proved.
  - The cookie string is the `;`-separated list of section 4.2.1 of RFC 6265.
  - `injectQuestion` returns the POST it would send, instead of sending it.

Inputs replace everything nondeterministic:

- time is an integer tick count;
- the HTTP client is a function from a request to a `Response`, which is `Json(question)` or `Failed`;
- `random.choices` is a function `rand` from the draw number to an index;
- `uuid4` is a parameter;
- the answers to browser prompts are `Option<string>` parameters.

## Model

| member | source | states |
|---|---|---|
| Models.PlayersOf | game/models.py:50-52 | the result is exactly the room's players, each once, in table order |
| Models.PlayersOfNone | game/models.py:50-52 | a room nobody has joined has an empty roster |
| Models.PlayerCountIsRoster | game/models.py:58-60 | `players.count()` equals the length of the room's roster |
| Models.RosterShape | game/models.py:50-52 | in a valid store a room has at most two players, and the k-th has join order k+1, so table order is `order_by('join_order')` |
| Models.CurrentGameState | game/models.py:54-56 | the result is the room's newest game state, or None exactly when the room has none |
| Models.CurrentGameStateReplaced | game/models.py:89-90 | saving a game state without changing its room leaves every room's current game state unchanged |
| Models.FindRoom | game/views.py:49-52 | a found room has the code and, when only active rooms are wanted, is active; none is found only if no such room exists |
| Models.Opponent | game/models.py:99-104 | with two players the result is the one not holding the turn (the first player when nobody holds it); otherwise None |
| Models.Switched | game/models.py:106-115 | with two players the turn passes to the opponent, and the round grows exactly when the turn returns to the first player; otherwise nothing changes; no other field changes |
| Models.SwitchTwiceFromFirst | game/models.py:106-115 | two switches from the first player reach the second player with the round unchanged, then the first player with the round plus one |
| Models.Alternation | game/models.py:106-115 | after n switches from the first player, player n mod 2 holds the turn and the round has grown by n div 2 |
| Models.Candidate | game/models.py:29 | every drawn code is six characters of A-Z and 0-9 |
| Models.AssignCode | game/models.py:21-42 | an existing code is kept; otherwise at most 100 attempts are made, every rejected candidate was taken, a code accepted in the loop is new, and after 100 collisions one more draw is taken unchecked |
| Models.GameStateAddedValid | game/services.py:116-120 | adding a valid game state to a room that has none keeps the store valid |
| Models.GameStateReplacedValid | game/models.py:115 | saving a valid game state of the same room keeps the store valid |
| Models.Db.SwitchTurn | game/models.py:106-115 | the method replaces exactly game state g by its switched form and keeps the store valid |
| Services.Prune | game/services.py:25 | the kept times are exactly those within the window, with their multiplicities, in their old order |
| Services.PruneConcat | game/services.py:25 | pruning distributes over concatenation |
| Services.PruneLater | game/services.py:21-29 | pruning at an earlier time and then at a later one is pruning at the later one |
| Services.PruneCount | game/services.py:25-28 | the number of times kept is the number of recorded requests inside the window |
| Services.SaturatedWindow | game/services.py:27-28 | when at least `limit` of the recorded requests fall inside the window, the check fails |
| Services.KeepAllRecent | game/services.py:25 | times all inside the window are kept unchanged |
| Services.ApiQuestionService.constructor | game/services.py:14-19 | the settings are copied and the list of request times starts empty |
| Services.ApiQuestionService.CheckRateLimit | game/services.py:21-29 | the list becomes its pruned form, and the check passes exactly when fewer than the limit remain |
| Services.ApiQuestionService.RecordRequest | game/services.py:31-33 | exactly one time is appended |
| Services.ApiQuestionService.FetchTruthQuestion | game/services.py:35-61 | when limited: the truth fallback, no request, and the list only pruned; otherwise one GET to `/truth` with the rating parameter, whose answer is returned with a time recorded, or on failure the fallback with nothing recorded |
| Services.ApiQuestionService.FetchDareQuestion | game/services.py:63-98 | when limited: the dare fallback and no request; otherwise `/api/dare` is tried, then `/dare` only if it failed; the first success is returned with one time recorded; if both fail, the fallback with nothing recorded |
| Services.FetchWithNewClient | game/services.py:142-147 | a fresh client's question text depends only on the settings, the type and the HTTP answers, never on earlier calls |
| Services.Unanswered | game/services.py:167-170 | the result is exactly the game state's unanswered questions, oldest first |
| Services.LastOpen | game/services.py:130-133 | the result is the newest unanswered question of the game state, or None when there is none |
| Services.CurrentQuestion | game/services.py:123-133 | the result is the newest unanswered question of the room's current game state; None without a game state or an open question |
| Services.MarkAnswered | game/services.py:166-170 | every question of the game state is marked answered; nothing else changes |
| Services.InitializedSound | game/services.py:104-121 | a game state is returned exactly when the room has two players; an existing game state is returned and nothing changes; otherwise exactly one game state is added, whose turn goes to the player with join order 1 at round 1; the result is then the current game state; the store stays valid |
| Services.InitializedIdempotent | game/services.py:111-114 | a second call returns the same game state and changes nothing |
| Services.WithQuestionSound | game/services.py:135-157 | without a game state nothing is created; otherwise exactly one unanswered question of the current game state, with the given text, type and source, is appended after the kept earlier questions and becomes the current question; only the question table changes; the store stays valid |
| Services.QuestionsGrownValid | game/services.py:149-155 | appending questions of existing game states keeps the store valid |
| Services.WithAdminQuestionSound | game/services.py:159-180 | exactly the current game state's questions are marked answered, every other question is kept, and the new ADMIN question is appended; it is then the only unanswered question of that game state and the current question; the store stays valid |
| Services.OnlyLastOpen | game/services.py:166-178 | when only the last question is open, it is the whole unanswered list |
| Services.NoneOpen | game/services.py:166-170 | with no open question the unanswered list is empty |
| Services.AnsweredSound | game/services.py:182-206 | one answer to the current question is stored, that question alone is marked answered, and every other question is kept; turn, round and choice stay unchanged; without a current question nothing changes; the store stays valid |
| Services.AnswerAddedValid | game/services.py:193-204 | answering an open question keeps the store valid |
| Services.AnswerRecordedValid | game/models.py:149 | the first answer to an open question keeps each question to at most one answer |
| Services.AdvancedSound | game/services.py:208-221 | the turn passes to the other player of the room, the round grows exactly when it returns to the first player, and the choice and waiting flag are cleared; every other game state is kept; None without a game state |
| Services.AdvancedTwice | game/services.py:208-221 | two rounds from the first player come back to that player one round later |
| Services.InitializeGame | game/services.py:104-121 | performs `Initialized` on the store and keeps it valid |
| Services.CreateQuestionFromApi | game/services.py:135-157 | performs `WithQuestion` with the freshly fetched text and keeps the store valid |
| Services.CreateAdminQuestion | game/services.py:159-180 | performs `WithAdminQuestion` and keeps the store valid |
| Services.SubmitAnswer | game/services.py:182-206 | performs `Answered` and keeps the store valid |
| Services.NextRound | game/services.py:208-221 | performs `Advanced` and keeps the store valid |
| Views.TurnCheck | game/views.py:123-137 | succeeds exactly when the room exists, the fields are valid, the player is in the room and holds the turn of the current game; otherwise 404, 400, 404 or 400 in the source's order |
| Views.TurnCheckOwnership | game/views.py:136-137 | a caller passing the check is one of the room's two players |
| Views.PlayerAddedValid | game/views.py:60-64 | a new player with a free name and join order count+1 <= 2 keeps the store valid |
| Views.RoomCreatedValid | game/views.py:27-32 | a new room with a fresh code and its creator at join order 1 keeps the store valid |
| Views.CreateRoom | game/views.py:20-37 | an empty stripped name gives 400 and no change; any other name gets a room, except for a 500 (with no change) when all 101 draws collide; on success the code is the first drawn candidate not already taken (or the 101st draw), and one active room is added with its creator at join order 1 |
| Views.JoinTarget | game/views.py:43-58 | succeeds exactly when both fields are non-empty, an active room has the code, the name is free and the room is not full; otherwise 400, 404, 400, 400 in that order |
| Views.JoiningSound | game/views.py:40-69 | a rejected join changes nothing; a successful one appends exactly one player with join order equal to its place in the room, the room then has at most two players, and the store stays valid |
| Views.JoinRoom | game/views.py:40-69 | performs `Joining` on the store and keeps it valid |
| Views.ChooseTruthDare | game/views.py:119-157 | a failed check changes nothing; otherwise the choice and waiting flag are set and one API question is added for the current game state |
| Views.SubmitAnswer | game/views.py:160-189 | empty text, an unknown player or an out-of-turn player are rejected before any change; success reports the unchanged turn holder and round |
| Views.StartGame | game/views.py:370-391 | 404 or 400 (not full) change nothing; otherwise a game state exists afterwards, and an existing one is left unchanged, so repeated calls are idempotent |
| Views.NextRound | game/views.py:394-410 | performs `Advanced` and reports the new turn holder and round; 500 without a game state |
| Views.ShownQuestion | game/views.py:240-250 | the shown question is the current question when there is one, otherwise the game's newest answered question |
| Views.LastClosed | game/views.py:247-250 | the result is the newest answered question of the game state |
| Views.ShownAnswer | game/views.py:261-262 | the shown answer is an answer to the shown question, or None when it has none |
| Views.LastAnswerTo | game/views.py:262 | the result is an answer to the question, or None when there is none |
| Views.ShownAnswerOnly | game/models.py:149 | in a valid store the shown answer is the only answer to its question |
| Views.StatusPlayers | game/views.py:232-238 | the status lists the room's players in join order with join orders 1 and 2, and `is_full` holds exactly with two |
| Views.StatusTurn | game/views.py:275-283 | round and turn holder are reported exactly when a game has started; the turn holder is a player of the room |
| Views.StatusQuestion | game/views.py:240-269 | the current question is shown unanswered when there is one; an answer is shown only with its question and is that question's only answer |
| Views.CollectPlayers | game/views.py:232-238 | the loop builds exactly `players_data` for the roster |
| Views.RoomStatusOf | game/views.py:226-284 | the reply is 404 for an unknown room, otherwise the room's status |
| Views.LifecycleValid | game/models.py:157-168 | a new request is pending with no question, an approval carries a question and a source, and both keep a request valid |
| Views.RequestStandalone | game/views.py:293-335 | an empty name or a bad type gives 400 and no change; otherwise the session's single record is replaced by a fresh pending request |
| Views.StandaloneStatus | game/views.py:338-353 | the record of the session, or 404 exactly when there is none |
| Views.RequestStoredValid | game/views.py:309-327 | storing a valid request keeps the store valid |
| Views.RequestThenStatus | game/views.py:309-353 | after a request, the status is PENDING and active, with no question and no source |
| Views.AdminSendApiQuestion | game/views.py:445-483 | 404 for an unknown session; otherwise the request is APPROVED with the fetched text and source API |
| Views.AdminInjectStandalone | game/views.py:486-520 | 404 for an unknown session, then 400 for bad text or type; otherwise APPROVED with the moderator's text, type and source ADMIN |
| Views.AdminInjectQuestion | game/views.py:413-442 | 404, 400 and 500 (no game) change nothing; otherwise the injected question is the room's current question |
| Text.TrimStartSpec | game/views.py:23 | stripping the front cuts only white space and leaves no white space in front |
| Text.TrimEndSpec | game/views.py:23 | stripping the back cuts only white space and leaves none at the end |
| Text.TrimSpec | static/admin/js/inject_question.js:42 | a trimmed string is a slice of the input whose cut ends are white space and whose own ends are not |
| Text.TrimEmptyIff | game/views.py:24 | a string strips to empty exactly when it is all white space |
| Text.TrimIdempotent | static/admin/js/inject_question.js:42 | trimming twice is trimming once |
| Text.UpperChar | game/views.py:43 | ASCII lower-case letters map to upper case, and other ASCII characters are kept |
| Text.Upper | game/views.py:43 | on ASCII input, upper-cases letter by letter and keeps the length |
| Text.LowerAscii | static/admin/js/inject_question.js:7 | lower-cases letter by letter and keeps the length |
| Admin.Preview | game/admin.py:72-73 | texts of at most 50 characters are unchanged; longer ones become their first 50 characters plus `...`, 53 in all |
| Admin.PreviewIdempotent | game/admin.py:83-84 | previewing a preview changes nothing |
| Admin.PreviewShape | game/admin.py:83-84 | a preview has at most 53 characters, is empty only for empty text, and starts like the text |
| Admin.QuestionPreview | game/admin.py:95-98 | `-` when the question is None or empty; otherwise its preview |
| Admin.QuestionPreviewByStatus | game/admin.py:95-98 | a pending request shows `-`; an approved one shows its question's preview; the column is never empty |
| Admin.PlayerCountColumn | game/admin.py:21-22 | the number of the room's players |
| Admin.CurrentRound | game/admin.py:25-30 | `-` exactly when the room has no game state; otherwise the current game's round |
| Admin.CurrentPlayer | game/admin.py:32-37 | when shown, the name of the current game's turn holder |
| Admin.PlayerShownWithRound | game/admin.py:25-37 | in a valid store a turn holder is shown exactly when a round is, the round is at least 1, and the holder is a player of the room |
| Admin.ActionButton | game/admin.py:39-45 | the button is offered exactly for an active room with two players, and it passes the room's code |
| Admin.GameOffersButton | game/admin.py:39-45 | every active room with a game in progress offers the button |
| InjectQuestion.Split | static/admin/js/inject_question.js:40 | a split has at least one piece |
| InjectQuestion.SplitPiecesFree | static/admin/js/inject_question.js:40 | no piece contains the separator |
| InjectQuestion.JoinSplit | static/admin/js/inject_question.js:40 | joining the pieces gives back the cookie string |
| InjectQuestion.SplitJoin | static/admin/js/inject_question.js:40 | splitting a join of separator-free pieces gives back the pieces |
| InjectQuestion.HexValue | static/admin/js/inject_question.js:44 | a hexadecimal digit has a value below 16 |
| InjectQuestion.OctetAt | static/admin/js/inject_question.js:44 | a `%XY` escape is an octet below 256 and lies inside the string |
| InjectQuestion.OctetsAt | static/admin/js/inject_question.js:44 | n escapes in a row give n octets, the first being the octet at the start |
| InjectQuestion.Utf8Encode | static/admin/js/inject_question.js:44 | a character encodes to 1 to 4 octets whose lead octet announces the length |
| InjectQuestion.DecodePlain | static/admin/js/inject_question.js:44 | a value without `%` decodes to itself |
| InjectQuestion.Utf8RoundTrip | static/admin/js/inject_question.js:44 | UTF-8 decoding undoes UTF-8 encoding for every character |
| InjectQuestion.DecodeEncode | static/admin/js/inject_question.js:44 | `decodeURIComponent` undoes percent-encoding for every string |
| InjectQuestion.EncodeAlphabet | static/admin/js/inject_question.js:44 | an encoding contains only `%` and upper-case hexadecimal digits |
| InjectQuestion.MatchIsPrefix | static/admin/js/inject_question.js:43 | the `substring` comparison holds exactly when the entry starts with `name=` |
| InjectQuestion.GetCookie | static/admin/js/inject_question.js:37-50 | the loop with `break` returns exactly the lookup: null for an empty cookie string, otherwise the decoded value of the first trimmed entry starting with `name=` |
| InjectQuestion.FirstMatchNone | static/admin/js/inject_question.js:41-47 | the result is null exactly when no trimmed entry starts with `name=` |
| InjectQuestion.FirstMatchWins | static/admin/js/inject_question.js:45 | the first matching entry decides, and later entries are ignored |
| InjectQuestion.ExtendedNameNoMatch | static/admin/js/inject_question.js:43 | an entry for a longer name such as `csrftokenX=` does not match |
| InjectQuestion.CookieRoundTrip | static/admin/js/inject_question.js:37-50 | a cookie written as `name=` plus the encoded value, with no earlier entry for the name, reads back as the value |
| InjectQuestion.InjectQuestion | static/admin/js/inject_question.js:2-22 | nothing is sent without text, an alert is given for a type that does not lower-case to truth or dare, and otherwise the POST goes to the room's URL with the text, the lower-cased type and the CSRF cookie (`"null"` when absent) |

## Left out

- game/consumers.py: the WebSocket consumers and their broadcast. Concurrency and network push are out of scope, and the consumers' answer path makes no turn check. The turn-ownership check is therefore modelled only in the HTTP handlers.
- game/utils.py, the URL tables and the migration are not part of this model.
- Page rendering is not modelled: `home`, `waiting_room`, `game_screen` (including its automatic start), `standalone_page` and `admin_dashboard`.
- Login checks, CSRF enforcement, `JsonResponse` formatting and error message strings are not modelled.
- Real HTTP is not modelled: `requests.get`, its 5-second timeout and `response.json()`. A response is either a parsed question or a failure, and a JSON body without `question` gives "No question available".
- Time is integer ticks, not floating-point seconds. Timestamps such as `created_at` and `updated_at` are replaced by table order.
- Player ids arrive as numbers. A non-numeric id, which would raise in the source, is not modelled.
- The body of `start_game` is reduced to whether it parses as a JSON object, since the parsed `player_id` is never used. An unparsable body is a 500.
- The `except Exception` branch of `Room.save` is not modelled; it serves only while the tables do not exist. After 100 collisions one more code is drawn without a check. Only if that code is taken too does the save break the `unique` constraint, which is modelled as a 500 from `CreateRoom`.
- Atomicity across concurrent requests is not modelled. Every operation runs alone.
- Services.FetchWithNewClient: a new `APIQuestionService` is built for every question, so the rate limit never carries over from one call to the next. No claim is made that it accumulates.
- Services.WithQuestionSound: `choose_truth_dare` adds an API question without closing an older open one. So two unanswered questions can coexist, and the "at most one unanswered question" property holds only right after a moderator injection.
- Services.AdvancedSound: `next_round` makes no turn or answer check, so either player can advance at any time.
- Views.JoiningSound: the model lets a room exist with no players. The room then holds at most two after a join, not exactly the two implied when both players joined through the handlers.
- Text.Upper: the contract covers ASCII input only. Other characters map as Python does only for those whose upper-case form is ASCII, and are otherwise kept. Full Unicode case mapping is out of scope.
- Text.LowerAscii: lower-cases ASCII letters only. JavaScript `toLowerCase` also maps non-ASCII letters, which can never produce `truth` or `dare`.
- InjectQuestion.InjectQuestion: the `fetch` itself, the reply handling, the alerts' wording and `location.reload()` are not modelled. The result is the request that would be sent.
- InjectQuestion.Utf8Encode: a JavaScript string holds UTF-16 code units. Here a character is a Unicode scalar value, so lone surrogates cannot occur. They could not be percent-encoded anyway, since `encodeURIComponent` throws a `URIError` on them.
