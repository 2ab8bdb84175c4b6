# Trivia game: a Dafny model of the room managers and the wire format

The trivia game is a multi-player true/false quiz played over TCP. The
repository holds two server prototypes and a client:

- `app/server.py` is the first server. It frames every JSON message with a
  4-byte big-endian length. It keeps per-connection receive and send buffers,
  and groups players into rooms of a configurable size. A join is meant to
  start the room's game once the room is full; as written, the check compares
  the player count with the constant 3 instead (see "## Findings"). The game
  ends at 5 points.
- `server.py` is the second server. It has public rooms of 5 and private rooms
  of 2, a room creator who starts the game, and a per-room state machine (the
  `GameState` values). Questions are served first in, first out from a fetched
  batch. A tie at 10 points plays on, and a creator who leaves hands the room
  to the next player.
- `app/client.py` is the first client. It turns typed lines into requests and
  uses the same framing as the first server.

The model has one Dafny module per source file, each with that file's own
constants:

| module | file | what it holds |
|---|---|---|
| `Text` | `text.dfy` | Python's `str.strip()` (every character `str.isspace()` accepts) and `str.lower()` (on ASCII letters), with their laws |
| `Trivia` | `trivia.dfy` | the question record, the case-insensitive answer comparison, the count of players at a threshold |
| `Lists` | `lists.dfy` | `list.remove` and its effect on lists without duplicates |
| `Framing` | `framing.dfy` | the length-prefixed codec both first-prototype programs share: the 4-byte prefix, frames, the receive loop (`Peel`, `Drain`, `ReceiveFrames`), and what a partial `send` leaves |
| `AppClient` | `app_client.dfy` | the menu and answer prompts (the lines `input()` returns are a parameter), and the client's buffers and shutdown flush |
| `AppServer` | `app_server.dfy` | `Player`, `GameRoom` and `GameServer` of the first server, as classes whose methods update their fields |
| `Server` | `server.dfy` | `Player`, `GameRoom` and `GameServer` of the second server, with its state machine |

What the environment would supply is passed in as a parameter:

- what `recv` returned;
- how each `send` call turned out;
- the question batch the trivia API returned, or its failure;
- the fresh room id;
- the JSON decoder.

Each room manager keeps an invariant `Valid()` that every operation preserves:

- room ids are unique;
- rooms are non-empty and within capacity;
- in `app/server.py`, no player is in two rooms;
- in `server.py`, the creator is a member and a room asking a question has
  one.

In `app/server.py` the room operations may change only two fields of a
player, `score` and `answered`: their `modifies` clauses name just those
fields of the members. A player's receive buffer, send buffer and write
interest, and so `Player.Valid()`, are therefore left as they were.

The two servers fix different constants, and each module keeps its own
file's: 5 points and rooms of the configured size in `app/server.py`; 10
points and rooms of 5 or 2 in `server.py`.

Four places in the source do not do what the code around them evidently
means. The model takes the intended rule in each:

- `server.py:366` calls a `prepare_question` method that does not exist. The
  tie-breaker is modelled as clearing every answered flag and fetching the
  next question, which is what the round reset does elsewhere.
- `server.py:99` calls `disconnect` with one argument, while the method takes
  two. The model's `Disconnect` takes the player.
- `server.py:229` and `server.py:342` both test whether everyone has
  answered. Completing a round twice is not meant, so the model completes it
  once, in `process_answer`.
- `app/server.py:201` compares the player count with the module constant 3
  instead of the room's own `max_players`. See "## Findings".

## Model

| member | source | states |
|---|---|---|
| Text.Strip | app/client.py:157 | what `strip()` keeps is the slice of the line that starts after the leading whitespace |
| Text.StripEnds | app/client.py:157 | a stripped line neither starts nor ends with whitespace |
| Text.StripCutsSpace | app/client.py:157 | everything `strip()` cuts off, at either end, is whitespace |
| Text.StripEmpty | app/client.py:143-146 | `strip()` leaves nothing exactly when the line is all whitespace |
| Text.StripTrims | app/client.py:157 | the kept slice is bounded by non-whitespace at both ends, and everything outside it is whitespace |
| Text.StripIdempotent | app/client.py:157 | stripping twice is stripping once |
| Text.StripPadded | app/client.py:176-179 | any whitespace typed around a line does not change what `strip()` keeps |
| Text.Lower | app/client.py:176 | `lower()` keeps the length and lowers each character in place |
| Text.LowerIdempotent | server.py:316-317 | lowering twice is lowering once |
| Text.StripLower | app/client.py:176 | `strip().lower()` equals `lower().strip()` |
| Trivia.AnswerMatchesCaseBlind | app/server.py:268-269 | any two answers that lower to the same text are judged alike, for every question |
| Trivia.AnswerMatchesLowered | app/server.py:268-269 | lowering an answer first does not change how it is judged |
| Trivia.CorrectAnswerMatches | app/server.py:268-269 | the correct answer, however it is spelled, is judged correct |
| Trivia.CountAtLeast | app/server.py:288-289 | the number of winners is at most the number of players, and is zero exactly when every score is below the threshold |
| Trivia.CountAtLeastTwo | server.py:348-351 | at least two winners exactly when two different positions hold scores at the threshold |
| Trivia.CountAtLeastOne | server.py:348-350 | exactly one winner exactly when one position holds a score at the threshold and no other position does |
| Lists.RemoveFirst | app/server.py:334 | `list.remove` takes out exactly one occurrence when there is one (one element fewer, multiset minus that element), and leaves the list as it is otherwise |
| Lists.RemoveFirstKeepsOrder | server.py:271 | `list.remove` cuts out the first occurrence, and the elements before and after it keep their order |
| Lists.RemoveFirstDistinct | app/server.py:334 | on a list without duplicates, removal leaves exactly the other elements, still without duplicates |
| Framing.Be32 | app/server.py:88 | `struct.pack('>I', n)` gives 4 bytes for every n below 2^32 |
| Framing.Be32Value | app/server.py:110 | `struct.unpack('>I', ...)` of 4 bytes is below 2^32 |
| Framing.Be32RoundTrip | app/server.py:88-110 | unpacking a packed length gives the length back |
| Framing.Be32Canonical | app/server.py:110 | every 4-byte prefix is the packing of the length it denotes |
| Framing.Frame | app/server.py:87-89 | a frame is 4 + n bytes long, is complete to the reader, announces n, and carries the payload after the prefix |
| Framing.EncodeAllSnoc | app/server.py:89 | queuing one more message appends its frame to the bytes already queued |
| Framing.EncodeAllAppend | app/server.py:89 | the bytes of two runs of messages are the two encodings, one after the other |
| Framing.Peel | app/server.py:107-114 | the receive loop stops only when no complete frame is left, and keeps no more than it was given |
| Framing.PeelReassembles | app/server.py:107-114 | no received byte is lost: the frames peeled, encoded again, followed by what stays buffered, are the buffer |
| Framing.PeelEncodeAll | app/server.py:85-114 | round trip: a buffer of encoded frames plus an incomplete tail is split back into exactly those payloads and that tail |
| Framing.PeelAppend | app/server.py:105-114 | receiving in two chunks yields the same frames and leftover as receiving everything at once |
| Framing.SplitDelivery | app/server.py:105-114 | a frame cut at any byte offset yields nothing from the first part, and exactly the payload once the rest arrives |
| Framing.FrameThen | app/server.py:110-114 | the reader finds a frame first even when other bytes follow it, and leaves those bytes |
| Framing.Drain | app/server.py:107-117 | with decoding, the loop stops with no complete frame left unless a payload failed to decode |
| Framing.DrainAgainstPeel | app/server.py:107-117 | the decoded messages are the decodings of the peeled payloads, up to the first payload that does not decode, and the frame of that payload is consumed |
| Framing.DrainEncodeAll | app/client.py:59-71 | frames of payloads that all decode come back as exactly their messages, with the tail left buffered |
| Framing.ReceiveFrames | app/server.py:107-116 | the `while True` loop computes `Drain` of the buffer |
| Framing.AfterSend | app/server.py:128 | `buffer[sent:]` is the unsent end of the buffer, of length `len - sent` (empty when `sent` reaches the length) |
| AppClient.HandleGameMenu | app/client.py:149-166 | no options means nothing is asked; otherwise the request sent is the one named by the line that ended the prompt |
| AppClient.HandleGameMenuFirstValid | app/client.py:157-166 | every line read before the chosen one was invalid, and the input runs out exactly when no line is a menu choice |
| AppClient.MenuChoicePadded | app/client.py:157-163 | whitespace around a menu choice does not change it |
| AppClient.AnswerRequestValues | app/client.py:177-183 | an answer line yields only `exit_room`, "true" or "false" |
| AppClient.AnswerRequestIgnoresCase | app/client.py:176 | the answer prompt ignores case |
| AppClient.AnswerRequestPadded | app/client.py:176 | the answer prompt ignores whitespace around the answer |
| AppClient.SendAnswer | app/client.py:175-183 | the loop sends the request named by the first valid line, all earlier lines were invalid, and the input runs out exactly when none is valid |
| AppClient.Flush | app/client.py:197-203 | what the flush loop leaves is always an unsent end of the buffer |
| AppClient.FlushEmpties | app/client.py:199-201 | a socket that takes at least one byte per call empties the buffer |
| AppClient.GameClient.constructor | app/client.py:18-25 | a client starts with empty buffers and running |
| AppClient.GameClient.SendMessage | app/client.py:39-47 | an encodable payload's frame is queued behind the pending bytes; an over-long one queues nothing |
| AppClient.GameClient.ReceiveMessage | app/client.py:49-78 | no data means the server closed and the client stops; otherwise the buffer keeps what `Drain` leaves, and the messages are returned, or none when a payload is not JSON |
| AppClient.GameClient.HandleWrite | app/client.py:88-99 | with bytes pending, a send takes a prefix, changes nothing when not ready, or stops the client when it fails |
| AppClient.GameClient.Shutdown | app/client.py:195-203 | the disconnect request is queued, and the buffer is flushed until it is empty or a send raises |
| AppServer.Player.constructor | app/server.py:21-30 | a new player has empty buffers, score 0 and has not answered |
| AppServer.Player.SendMessage | app/server.py:85-97 | an encodable message's frame is queued and write interest is set; an over-long one changes nothing |
| AppServer.Player.ReceiveMessage | app/server.py:99-122 | no data means the peer closed; otherwise the buffer keeps what `Drain` leaves, and a payload that is not JSON queues the error reply |
| AppServer.Player.SendBufferedMessages | app/server.py:124-136 | an accepted send leaves the unsent end, and write interest stays on exactly while bytes remain; a failing send is reported so the player is disconnected |
| AppServer.GameRoom.constructor | app/server.py:33-41 | a room starts empty, not in progress, with no questions |
| AppServer.NextQuestion | app/server.py:245-254 | the next question is served from the batch while it lasts; after it, a non-empty fetch starts a new batch at its first question, and anything else fails |
| AppServer.QuestionsInOrder | app/server.py:245-254 | over a batch, n successive steps ask its first n questions in order, whatever the fetches would have returned |
| AppServer.Credit | app/server.py:268-273 | an answer earns one point exactly when it matches the correct answer ignoring case, and none otherwise |
| AppServer.CreditIgnoresCase | app/server.py:268-269 | the credit does not depend on the case of the answer |
| AppServer.WinnerExists | app/server.py:288-289 | there are winners exactly when some player has reached 5 points |
| AppServer.AutoStartAsWrittenMisses | app/server.py:201-202 | as written, rooms smaller than 3 never start by joining, and rooms larger than 3 start when only 3 have joined |
| AppServer.GameServer.constructor | app/server.py:48-53 | a server starts with no rooms and its configured room size |
| AppServer.GameServer.GetPlayerRoom | app/server.py:346-350 | the room found holds the player, and none is found exactly when no room does |
| AppServer.GameServer.PlayerRoomUnique | app/server.py:346-350 | under the invariant, the room found is the only room holding the player |
| AppServer.ResetPlayers | app/server.py:312-314 | every player's score is 0 and answer cleared, with their buffers and write interest untouched |
| AppServer.ClearAnswers | app/server.py:303-304 | every answer is cleared, with scores, buffers and write interest untouched |
| AppServer.GameServer.ResetRoom | app/server.py:311-320 | the room is removed, emptied and cleared, and its old members' scores and answered flags are reset; nothing else of theirs may change |
| AppServer.GameServer.EndGameDueToError | app/server.py:307-309 | the game stops and the room is reset and removed; of the members only scores and answers may change |
| AppServer.GameServer.FetchAndBroadcastQuestion | app/server.py:223-259 | the room moves on to the question `NextQuestion` gives; when fetching fails, the game ends and the room is torn down |
| AppServer.GameServer.StartGame | app/server.py:208-221 | a game in progress is left alone; otherwise it starts with every score 0, and the first question is asked or the room is torn down |
| AppServer.GameServer.EndRound | app/server.py:282-305 | the game is over exactly when some player had reached 5 points, and the room is then torn down; otherwise answers are cleared, scores are kept, and the next question is asked |
| AppServer.GameServer.ProcessAnswer | app/server.py:262-280 | without a room or a current question nothing changes; otherwise the answerer is credited, and the round ends exactly when every other member had answered |
| AppServer.GameServer.AnswerInRoom | app/server.py:268-280 | inside the room, the answer is credited and marked; the round ends as `EndRound` says once all have answered |
| AppServer.GameServer.CreateGameRoom | app/server.py:172-184 | a player already in a room is refused; otherwise a new room with the fresh id and the configured size holds only the player |
| AppServer.GameServer.JoinGameRoom | app/server.py:186-206 | a player already in a room, or one finding no open room, changes nothing; otherwise they join the first open room in creation order |
| AppServer.GameServer.JoinRoom | app/server.py:195-203 | the player is appended, and the game starts exactly when the room reaches its own capacity |
| AppServer.GameServer.Disconnect | app/server.py:327-344 | a player in no room changes nothing; otherwise they leave their room as `LeaveRoom` says |
| AppServer.GameServer.LeaveFoundRoom | app/server.py:333-344 | once the room is found, the player leaves it as `LeaveRoom` says; the player, the other rooms and everyone not left in that room are untouched |
| AppServer.GameServer.LeaveRoom | app/server.py:333-344 | the room is deleted when left empty; a game in progress left with one player is torn down; otherwise only the player list shrinks |
| AppServer.FirstRoomWith | app/server.py:347-349 | the first room in order that holds the player, or past the end when none does |
| AppServer.FirstOpenRoom | app/server.py:193-194 | the first room that is neither full nor in progress, or past the end when none is |
| Server.Judge | server.py:316-325 | an answer counts exactly when it lowers to "true" or "false", and then earns a point exactly when it equals the lowered correct answer |
| Server.JudgeIgnoresCase | server.py:316 | the verdict does not depend on the case of the answer |
| Server.GameWonMeaning | server.py:348-350 | the round is won exactly when one player alone has reached 10 points |
| Server.TieBreakMeaning | server.py:348-352 | the round goes to a tie-breaker exactly when two different players have reached 10 points |
| Server.Player.constructor | server.py:24-30 | a new player has score 0, has not answered, and has no current room |
| Server.GameRoom.constructor | server.py:32-43 | a room holds its creator only, waits, has an empty queue, and has capacity 5 for "public" and 2 otherwise, never below the 2 players needed to start |
| Server.PopQuestion | server.py:232-242 | a non-empty queue always serves its head; an empty one is refilled only from a non-empty fetch; what is served followed by what stays queued is the queue (or the batch) |
| Server.QueueIsFifo | server.py:241 | successive pops serve the queue's questions in order, whatever the fetches would have returned |
| Server.FirstAvailablePublic | server.py:170-174 | the first public, non-private, non-full room that is not in progress, or past the end |
| Server.FindAvailablePublicGame | server.py:170-174 | none is found exactly when no room is available; otherwise the one found is the first available room |
| Server.RoomIndex | server.py:160 | the position of the room with the id, or past the end when no room has it |
| Server.GameServer.constructor | server.py:46-52 | a server starts with no rooms |
| Server.GameServer.FindRoom | server.py:160 | `rooms.get(id)` finds a room with that id, and nothing exactly when no room has it |
| Server.GameServer.PlayerRoom | server.py:225-226 | the room found is the player's current room, and nothing when the player has none or it is gone |
| Server.GameServer.FindRoomUnique | server.py:160 | under the invariant, a room is found by its own id |
| Server.GameServer.CreateGame | server.py:131-144 | a new room with the fresh id, the type's capacity and the player as creator and only member is added last, and becomes the player's current room |
| Server.GameServer.JoinTarget | server.py:147-161 | a public join finds the first available public room; a private join finds the room with the id only if it is private and not full |
| Server.GameServer.JoinGame | server.py:146-168 | the player joins exactly when a target room is found, and is appended to it, with the room's creator, state, queue and question kept; otherwise nothing changes |
| Server.GameServer.AddPlayerToRoom | server.py:176-189 | the player is appended and the room becomes their current room |
| Server.GameServer.FetchQuestion | server.py:232-243 | a question is popped first in, first out and the room asks it; when no question can be had, the state and current question stay |
| Server.GameServer.StartGame | server.py:198-222 | only the creator of the player's current room starts, and only with at least 2 players; the game is then in progress and its first question fetched |
| Server.GameServer.ResetForNextQuestion | server.py:377-382 | the question is cleared, the room waits, and answers are cleared with scores kept |
| Server.GameServer.DeleteRoom | server.py:409 | the room is removed from the server |
| Server.GameServer.EndGame | server.py:400-410 | the game finishes and the room is removed |
| Server.GameServer.CompleteRound | server.py:346-356 | exactly one player at 10 points wins and the room is removed, with its queue, question and answers kept; more than one plays a tie-breaker question; none moves to the next round; scores are kept |
| Server.GameServer.ProcessTieBreaker | server.py:358-367 | answers are cleared and the next question is asked, with the room still asking |
| Server.GameServer.AdvanceRound | server.py:306-308 | answers are cleared and the next question fetched, the room waiting when none can be had |
| Server.GameServer.NextPhase | server.py:298-308 | one tick of the state machine: a waiting room fetches, an asking room completes its round exactly when all have answered, a room between rounds resets and fetches, the others are left alone; answers are cleared only by a reset, a tie-breaker or a next round, and scores never change |
| Server.GameServer.ReceiveAnswer | server.py:316-333 | an invalid answer changes nothing; a valid one marks the player as answered and adds the point it earns |
| Server.GameServer.ProcessAnswer | server.py:224-230 | an answer counts only while the player's current room asks a question; then the round completes exactly when every member has answered |
| Server.GameServer.AnswerInRoom | server.py:227-230 | inside the room, the answer is judged as `Judge` says, nothing else changes until all have answered, and the round then completes as `CompleteRound` says |
| Server.GameServer.ConcludeAnswer | server.py:229-230 | the round completes exactly when every player had answered, as `CompleteRound` says; until then nothing changes |
| Server.GameServer.Disconnect | server.py:261-290 | a player with no current room changes nothing; otherwise they are removed, an emptied room is deleted, and a departing creator is replaced by the first remaining player; the room's state, queue and question are kept |
| Server.GameServer.LeaveFoundRoom | server.py:270-290 | once the room is found, the player leaves it as `LeaveRoom` says, with its state, queue and question kept and the other rooms untouched |
| Server.GameServer.LeaveRoom | server.py:270-290 | the room keeps the other players in order; it is deleted when empty; otherwise the creator is handed on when the creator left |
| Server.GameServer.RemovePlayer | server.py:271-290 | the player is removed and a departing creator is replaced by the first remaining player |

## Left out

- Sockets, the selector, `recv`/`send`, `accept`, `close` and the event loop of both servers and the client are left out. What one `recv` returned and how each `send` turned out are parameters.
- The trivia API is not modelled. `requests.get` is replaced by the `fetched` parameter, which holds the `results` batch or `None`. In `app/server.py`, `None` stands for a non-200 status or any exception, which `fetch_questions` catches. In `server.py`, `None` stands only for a non-200 status.
- `Server.GameServer.FetchQuestion`: `fetch_question` (`server.py:232-240`) has no `try`, so an exception from the request or from decoding the response escapes `start_game` (`server.py:205`) or `next_phase`. It then stops the client's handler (`server.py:80-89`, which catches only `ConnectionResetError` and `BrokenPipeError`) or the server's loop (`server.py:385-395`, which catches only `KeyboardInterrupt`). The model has no such outcome.
- JSON encoding and decoding are not modelled. Payloads are byte sequences and decoding is a function parameter. A UTF-8 decoding error is folded into a decoding failure; the source treats it as a generic error that disconnects the player or stops the client.
- `uuid.uuid4()` is not modelled. The fresh room id is a parameter, required to differ from every existing id.
- Logging and `print` are not modelled.
- The client's threading lock is not modelled: the model is single-threaded, like the servers' cores.
- Broadcasts and notifications (`notify_room`, `broadcast_to_room`, `broadcast_question`, `notify_scores`) and the menu messages are not modelled. In `app/server.py` they go through `send_message`, which queues a frame in each member's send buffer and switches write interest on (`app/server.py:85-93`, `app/server.py:322-325`). The model leaves the members' buffers and write interest unchanged instead; `AppServer.Player.SendMessage` models one such queueing on its own. In `server.py` they write to the socket directly through `Message.send` (`server.py:254-256`). The disconnect that follows a failed queueing in `send_message` is not modelled either.
- `AppClient.HandleGameMenu`: `handle_game_menu` asks again by calling itself (`app/client.py:166`), so about a thousand invalid lines in a row raise `RecursionError`. The model reads any number of invalid lines.
- The request dispatchers (`process_message`, `process_request`, `process_server_message`) and an exception raised half-way through a batch of messages are not modelled. The name prompts (`handle_set_name`, `set_name`) and `show_menu` are also left out.
- `lower()` is modelled on ASCII letters only. Python also lowers other Unicode letters.
- `app/server.py:388` passes `args.max`, which the argument parser never defines. The room size is a parameter of the model's server instead.
- The `start()` loop of `server.py`, which calls `next_phase` for every room on every tick, is not modelled as a loop. `Server.GameServer.NextPhase` models one call.
- `Server.GameServer.PlayerRoom`: `current_room` is not set before a player creates or joins a room, and reading it would raise `AttributeError`. The model treats that player as having no current room.
- `Server.GameServer.LeaveRoom`: `list.remove` raises `ValueError` when the player is not in the room. The model leaves the list unchanged instead.
- `Server.GameServer.FetchQuestion`: `pop(0)` on an empty batch raises `IndexError`. The model treats it like a non-200 status: no question is asked.
- `message.py`, `client.py` and the tests are not part of this model.

## Findings

| source | as written | input that shows it | evidently intended | confidence | as-written member | corrected member |
|---|---|---|---|---|---|---|
| app/server.py:201 | a join starts the game when the room has at least `DEFAULT_MAX_PLAYERS_PER_ROOM` (3) players (`AppServer.AutoStartAsWritten`) | rooms of size 2: the second player fills the room with 2 < 3 players, so no join ever starts it. Rooms of size 4: the game starts at 3 players, with a place still free | start when the room reaches its own `max_players` | not executed | AppServer.AutoStartAsWrittenMisses | AppServer.GameServer.JoinRoom |
