/** The first server prototype (`app/server.py`): each connected player with
    its two byte buffers, the game rooms, and the room manager that runs
    joining, rounds, scoring and tear-down. Messages the server sends to
    players are left out except where they touch a player's buffers. */
module AppServer {
  import opened Wrappers
  import opened Text
  import opened Trivia
  import opened Lists
  import opened Framing

  /** `DEFAULT_MAX_PLAYERS_PER_ROOM`. */
  const DefaultMaxPlayersPerRoom: nat := 3
  /** The score with which a player wins. */
  const WinningScore: nat := 5
  /** A game in progress ends when fewer players than this remain. */
  const MinPlayersInGame: nat := 2

  type RoomId = string

  /** What one call of `receive_message` amounts to: the peer closed the
      connection, or the messages of the complete frames were handed on, in
      order, possibly ending at a payload that was not JSON. */
  datatype Received<M> = PeerClosed | Delivered(messages: seq<M>, decodeFailed: bool)

  /** One connected player. */
  class Player {
    var recvBuffer: seq<byte>
    var sendBuffer: seq<byte>
    /** Whether `EVENT_WRITE` is among the events the selector watches. */
    var writeInterest: bool
    var score: nat
    var answered: bool

    /** Bytes never wait in the send buffer unless the selector watches for
        writability, so queued bytes always get sent. */
    ghost predicate Valid()
      reads this
    {
      sendBuffer != [] ==> writeInterest
    }

    constructor ()
      ensures Valid()
      ensures recvBuffer == [] && sendBuffer == [] && !writeInterest && score == 0 && !answered
    {
      recvBuffer := [];
      sendBuffer := [];
      writeInterest := false;
      score := 0;
      answered := false;
    }

    /** The buffer part of `send_message`: the frame is queued behind the
        bytes already waiting and write interest is switched on. When
        `struct.pack` rejects the length, nothing is queued. */
    method SendMessage(payload: seq<byte>) returns (queued: bool)
      requires Valid()
      modifies this`sendBuffer, this`writeInterest
      ensures Valid()
      ensures queued == Encodable(payload)
      ensures queued ==> sendBuffer == old(sendBuffer) + Frame(payload) && writeInterest
      ensures !queued ==> sendBuffer == old(sendBuffer) && writeInterest == old(writeInterest)
    {
      queued := |payload| < LengthBound;
      if queued {
        sendBuffer := sendBuffer + Frame(payload);
        writeInterest := true;
      }
    }

    /** The buffer part of `receive_message` for the bytes one `recv`
        returned. No bytes: the peer closed and nothing changes here. Else
        the bytes are appended and the frame loop runs; a payload that is
        not JSON ends it and queues the `reply` (the "Invalid message
        format." error) for the player. */
    method ReceiveMessage<M>(data: seq<byte>, decode: seq<byte> -> Option<M>, reply: seq<byte>) returns (r: Received<M>)
      requires Valid()
      modifies this`recvBuffer, this`sendBuffer, this`writeInterest
      ensures Valid()
      ensures data == [] ==> r == PeerClosed && unchanged(this)
      ensures data != [] ==> var d := Drain(old(recvBuffer) + data, decode);
        && recvBuffer == d.rest
        && r == Delivered(d.messages, d.decodeFailed)
        && (d.decodeFailed && Encodable(reply) ==> sendBuffer == old(sendBuffer) + Frame(reply) && writeInterest)
        && (!d.decodeFailed || !Encodable(reply) ==> sendBuffer == old(sendBuffer) && writeInterest == old(writeInterest))
    {
      if data == [] {
        return PeerClosed;
      }
      recvBuffer := recvBuffer + data;
      var messages, rest, decodeFailed := ReceiveFrames(recvBuffer, decode);
      recvBuffer := rest;
      if decodeFailed {
        var _ := SendMessage(reply);
      }
      r := Delivered(messages, decodeFailed);
    }

    /** `send_buffered_messages` given how the `send` call turned out. With
        bytes pending, an accepted prefix leaves the buffer's end, and write
        interest goes off only once the buffer is empty; a send that is not
        ready changes nothing; any other failure is reported so that the
        server disconnects the player. */
    method SendBufferedMessages(outcome: SendOutcome) returns (failed: bool)
      requires Valid()
      modifies this`sendBuffer, this`writeInterest
      ensures Valid()
      ensures failed <==> old(sendBuffer) != [] && outcome == SendFailed
      ensures old(sendBuffer) != [] && outcome.Accepted? ==>
        && sendBuffer == AfterSend(old(sendBuffer), outcome.sent)
        && writeInterest == (sendBuffer != [])
      ensures old(sendBuffer) == [] || !outcome.Accepted? ==> unchanged(this)
    {
      failed := false;
      if sendBuffer != [] {
        match outcome
        case Accepted(n) =>
          sendBuffer := AfterSend(sendBuffer, n);
          if sendBuffer == [] {
            writeInterest := false;
          }
        case WouldBlock =>
        case SendFailed =>
          failed := true;
      }
    }
  }

  /** A room operation leaves a player's connection state alone: the bytes
      waiting in either buffer and the write interest are as before. */
  twostate predicate BuffersKept(p: Player)
    reads p
  {
    && p.recvBuffer == old(p.recvBuffer) && p.sendBuffer == old(p.sendBuffer)
    && p.writeInterest == old(p.writeInterest)
  }

  /** The loop of `reset_room` and `start_game`: every player's score goes
      back to 0 and their answer is cleared; nothing else of theirs changes. */
  method ResetPlayers(players: seq<Player>)
    modifies (set p | p in players)`score, (set p | p in players)`answered
    ensures forall p :: p in players ==> BuffersKept(p)
    ensures forall p :: p in players ==> p.score == 0 && !p.answered
  {
    forall p | p in players {
      p.score := 0;
    }
    forall p | p in players {
      p.answered := false;
    }
  }

  /** The loop of `end_round` when play goes on: every answer is cleared;
      nothing else of the players changes. */
  method ClearAnswers(players: seq<Player>)
    modifies (set p | p in players)`answered
    ensures forall p :: p in players ==> !p.answered && p.score == old(p.score) && BuffersKept(p)
  {
    forall p | p in players {
      p.answered := false;
    }
  }

  /** One game room. */
  class GameRoom {
    const roomId: RoomId
    const maxPlayers: nat
    var players: seq<Player>
    var inProgress: bool
    var currentQuestion: Option<Question>
    var questions: seq<Question>
    var currentQuestionIndex: nat

    constructor (roomId: RoomId, maxPlayers: nat)
      ensures this.roomId == roomId && this.maxPlayers == maxPlayers
      ensures players == [] && !inProgress && currentQuestion == None
      ensures questions == [] && currentQuestionIndex == 0
    {
      this.roomId := roomId;
      this.maxPlayers := maxPlayers;
      players := [];
      inProgress := false;
      currentQuestion := None;
      questions := [];
      currentQuestionIndex := 0;
    }

    /** `is_full`. */
    predicate IsFull()
      reads this
    {
      |players| >= maxPlayers
    }

    /** A room `join_game_room` may put a player into. */
    predicate IsOpen()
      reads this
    {
      !inProgress && !IsFull()
    }
  }

  /** Where `fetch_and_broadcast_question` goes next: ask the question before
      `index` in `questions` (so `index` counts the questions asked), or end
      the game because the batch ran out and no new one could be fetched. */
  datatype QuestionStep = Ask(questions: seq<Question>, index: nat) | FetchFailed

  /** The question logic of `fetch_and_broadcast_question` and
      `fetch_questions`. `fetched` is what the question service returned:
      `None` for a failed request, else the batch. */
  function NextQuestion(questions: seq<Question>, index: nat, fetched: Option<seq<Question>>): (s: QuestionStep)
    ensures s.Ask? ==> 0 < s.index <= |s.questions|
    ensures index < |questions| ==> s == Ask(questions, index + 1)
    ensures index >= |questions| ==> (s.Ask? <==> fetched.Some? && fetched.value != [])
    ensures index >= |questions| && s.Ask? ==> s.questions == fetched.value && s.index == 1
  {
    if index < |questions| then Ask(questions, index + 1)
    else if fetched.Some? && fetched.value != [] then Ask(fetched.value, 1)
    else FetchFailed
  }

  /** Successive questions come from the batch in order: after `n` steps
      from the start of a batch of at least `n` questions, the `n`th was
      asked last, whatever the question service would have returned. */
  lemma {:induction false} QuestionsInOrder(questions: seq<Question>, n: nat, fetches: seq<Option<seq<Question>>>)
    requires 0 < n <= |questions| && |fetches| == n
    ensures Steps(questions, 0, fetches) == Ask(questions, n)
  {
    if n > 1 {
      QuestionsInOrder(questions, n - 1, fetches[..n - 1]);
      StepsSnoc(questions, 0, fetches[..n - 1], fetches[n - 1]);
      assert fetches[..n - 1] + [fetches[n - 1]] == fetches;
    }
  }

  /** `NextQuestion` applied once per fetch result, stopping at a failure. */
  function Steps(questions: seq<Question>, index: nat, fetches: seq<Option<seq<Question>>>): QuestionStep
    decreases |fetches|
  {
    if fetches == [] then Ask(questions, index)
    else match NextQuestion(questions, index, fetches[0])
      case Ask(qs, i) => Steps(qs, i, fetches[1..])
      case FetchFailed => FetchFailed
  }

  lemma {:induction false} StepsSnoc(questions: seq<Question>, index: nat, fetches: seq<Option<seq<Question>>>, f: Option<seq<Question>>)
    ensures Steps(questions, index, fetches + [f]) ==
      match Steps(questions, index, fetches)
      case Ask(qs, i) => NextQuestion(qs, i, f)
      case FetchFailed => FetchFailed
    decreases |fetches|
  {
    if fetches == [] {
      assert [f][1..] == [];
    } else {
      assert (fetches + [f])[1..] == fetches[1..] + [f];
      match NextQuestion(questions, index, fetches[0])
      case Ask(qs, i) => StepsSnoc(qs, i, fetches[1..], f);
      case FetchFailed =>
    }
  }

  /** The scores of `players`, in room order. */
  function Scores(players: seq<Player>): (s: seq<nat>)
    reads set p | p in players
    ensures |s| == |players| && forall i :: 0 <= i < |players| ==> s[i] == players[i].score
  {
    if players == [] then [] else [players[0].score] + Scores(players[1..])
  }

  /** What `process_answer` came to. */
  datatype AnswerOutcome = NoActiveQuestion | Recorded | RoundEnded(gameOver: bool)

  /** The point an answer earns: one exactly when it matches the question's
      answer ignoring case. */
  function Credit(answer: string, q: Question): (n: nat)
    ensures n <= 1
    ensures n == 1 <==> Lower(answer) == Lower(q.correctAnswer)
  {
    if AnswerMatches(answer, q) then 1 else 0
  }

  /** `process_answer` ignores the case of the answer it is sent. */
  lemma CreditIgnoresCase(answer: string, q: Question)
    ensures Credit(Lower(answer), q) == Credit(answer, q)
  {
    LowerIdempotent(answer);
  }

  /** A room member's score once `answerer` has earned `credit`. */
  function NewScore(p: Player, score: nat, answerer: Player, credit: nat): nat
  {
    if p == answerer then score + credit else score
  }

  /** Every player has answered the current question. */
  predicate AllAnswered(players: seq<Player>)
    reads set p | p in players
  {
    forall i :: 0 <= i < |players| ==> players[i].answered
  }

  /** `end_round`'s count of winners is positive exactly when some player
      has reached the winning score. */
  lemma WinnerExists(players: seq<Player>)
    ensures CountAtLeast(Scores(players), WinningScore) > 0 <==> exists p :: p in players && p.score >= WinningScore
  {
    var s := Scores(players);
    if CountAtLeast(s, WinningScore) > 0 {
      var i :| 0 <= i < |s| && s[i] >= WinningScore;
      assert players[i] in players;
    }
  }

  /** Whether a room that a join has just brought to `count` players starts
      its game, as line 201 is written: against the module constant rather
      than the room's own capacity. */
  function AutoStartAsWritten(count: nat): bool
  {
    count >= DefaultMaxPlayersPerRoom
  }

  /** As written, a server configured for rooms smaller than 3 never
      starts a game by joining: every count such a room can reach is below
      the constant. With rooms larger than 3, the game starts when the third
      player joins, while the room still has a free place. */
  lemma AutoStartAsWrittenMisses(maxPlayers: nat)
    ensures maxPlayers < DefaultMaxPlayersPerRoom ==> forall count: nat :: count <= maxPlayers ==> !AutoStartAsWritten(count)
    ensures maxPlayers > DefaultMaxPlayersPerRoom ==> AutoStartAsWritten(DefaultMaxPlayersPerRoom) && DefaultMaxPlayersPerRoom < maxPlayers
  {
  }

  /** The room manager of `GameServer`. Rooms are kept in the order the
      `rooms` dictionary iterates them, which is creation order. */
  class GameServer {
    const maxPlayersPerRoom: nat
    var rooms: seq<GameRoom>

    constructor (maxPlayersPerRoom: nat)
      ensures this.maxPlayersPerRoom == maxPlayersPerRoom && rooms == [] && Valid()
    {
      this.maxPlayersPerRoom := maxPlayersPerRoom;
      rooms := [];
    }

    ghost function Rooms(): set<GameRoom>
      reads this
    {
      set r | r in rooms
    }

    /** Every player in some room. */
    ghost function Members(): set<Player>
      reads this, Rooms()
    {
      set r, p | r in rooms && p in r.players :: p
    }

    /** The room manager's invariant: room ids are unique (the dictionary's
        keys), rooms are never empty and never over capacity (a room holds
        its creator even when the capacity is 0), no player is listed twice
        in a room, and no player is in two rooms. */
    ghost predicate Valid()
      reads this, Rooms()
    {
      && Distinct(rooms)
      && (forall r1, r2 :: r1 in rooms && r2 in rooms && r1.roomId == r2.roomId ==> r1 == r2)
      && (forall r :: r in rooms ==> r.players != [] && (|r.players| <= r.maxPlayers || |r.players| == 1))
      && (forall r :: r in rooms ==> Distinct(r.players))
      && (forall r1, r2, p :: r1 in rooms && r2 in rooms && p in r1.players && p in r2.players ==> r1 == r2)
    }

    /** `get_player_room`: the first room, in dictionary order, that lists
        the player. */
    function GetPlayerRoom(player: Player): (r: Option<GameRoom>)
      reads this, Rooms()
      ensures r.Some? ==> r.value in rooms && player in r.value.players
      ensures r.None? <==> forall room :: room in rooms ==> player !in room.players
    {
      var i := FirstRoomWith(rooms, player);
      if i < |rooms| then Some(rooms[i]) else None
    }

    /** Under the invariant a player's room is unique, so the first room
        that lists the player is the room. */
    lemma PlayerRoomUnique(player: Player, room: GameRoom)
      requires Valid() && room in rooms && player in room.players
      ensures GetPlayerRoom(player) == Some(room)
    {
    }

    /** `reset_room`'s result: the room is deleted from `rooms`, holds no
        players or questions any more, and each of its former `members` has
        score 0 and no answer, with its buffers as they were. */
    twostate predicate TornDown(room: GameRoom, members: seq<Player>)
      reads this, room, set p | p in members
    {
      && rooms == RemoveFirst(old(rooms), room)
      && room.players == [] && room.questions == [] && room.currentQuestion == None && room.currentQuestionIndex == 0
      && (forall p :: p in members ==> p.score == 0 && !p.answered)
    }

    /** The room now asks the question the step names, and the set of
        rooms is as before. */
    twostate predicate AskedNext(room: GameRoom, step: QuestionStep)
      reads this, room
    {
      && step.Ask? && 0 < step.index <= |step.questions|
      && room.questions == step.questions && room.currentQuestionIndex == step.index
      && room.currentQuestion == Some(step.questions[step.index - 1])
      && rooms == old(rooms)
    }

    /** The invariant survives a change to one room's player list that
        keeps that list non-empty, within capacity and free of duplicates,
        and brings in no player of another room. */
    twostate lemma ValidAfterPlayersChange(room: GameRoom)
      requires old(Valid()) && room in old(rooms) && rooms == old(rooms)
      requires forall r :: r in rooms && r != room ==> r.players == old(r.players)
      requires room.players != [] && (|room.players| <= room.maxPlayers || |room.players| == 1)
      requires Distinct(room.players)
      requires forall p, r :: p in room.players && r in rooms && r != room ==> p !in r.players
      ensures Valid()
    {
    }

    /** The invariant survives deleting a room. */
    twostate lemma ValidAfterRemoval(room: GameRoom)
      requires old(Valid()) && rooms == RemoveFirst(old(rooms), room)
      requires forall r :: r in rooms ==> r.players == old(r.players)
      ensures Valid()
    {
      RemoveFirstDistinct(old(rooms), room);
    }

    /** The invariant survives adding a room with a new id whose players
        are in no other room. */
    twostate lemma ValidAfterAddition(new room: GameRoom)
      requires old(Valid()) && rooms == old(rooms) + [room] && room !in old(rooms)
      requires forall r :: r in old(rooms) ==> r.players == old(r.players) && r.roomId != room.roomId
      requires room.players != [] && (|room.players| <= room.maxPlayers || |room.players| == 1)
      requires Distinct(room.players)
      requires forall p, r :: p in room.players && r in old(rooms) ==> p !in r.players
      ensures Valid()
    {
    }

    /** Every player of a listed room is a member. */
    lemma MembersOf(room: GameRoom)
      requires room in rooms
      ensures forall p :: p in room.players ==> p in Members()
    {
    }

    /** `reset_room`. The room must be one of `rooms` (the deletion raises
        `KeyError` otherwise). Since ids are unique, deleting the entry for
        the room's id removes exactly this room. */
    method ResetRoom(room: GameRoom)
      requires Valid() && room in rooms
      modifies this`rooms, room, (set p | p in room.players)`score, (set p | p in room.players)`answered
      ensures Valid()
      ensures TornDown(room, old(room.players))
      ensures room.inProgress == old(room.inProgress)
    {
      ResetPlayers(room.players);
      room.players := [];
      room.questions := [];
      room.currentQuestion := None;
      room.currentQuestionIndex := 0;
      RemoveFirstDistinct(rooms, room);
      rooms := RemoveFirst(rooms, room);
      ValidAfterRemoval(room);
    }

    /** `end_game_due_to_error`: the game stops and the room is reset. */
    method EndGameDueToError(room: GameRoom)
      requires Valid() && room in rooms
      modifies this`rooms, room, (set p | p in room.players)`score, (set p | p in room.players)`answered
      ensures Valid()
      ensures TornDown(room, old(room.players)) && !room.inProgress
    {
      room.inProgress := false;
      ResetRoom(room);
    }

    /** `fetch_and_broadcast_question` together with `fetch_questions`: ask
        the next question of the batch, fetching a new batch only when this
        one is used up; a failed or empty fetch ends the game. */
    method FetchAndBroadcastQuestion(room: GameRoom, fetched: Option<seq<Question>>)
      requires Valid() && room in rooms
      modifies this`rooms, room, (set p | p in room.players)`score, (set p | p in room.players)`answered
      ensures Valid()
      ensures var step := NextQuestion(old(room.questions), old(room.currentQuestionIndex), fetched);
        && (step.Ask? ==> AskedNext(room, step) && room.players == old(room.players))
        && (step.Ask? ==> room.inProgress == old(room.inProgress))
        && (step.Ask? ==> forall p :: p in room.players ==> unchanged(p))
        && (step == FetchFailed ==> TornDown(room, old(room.players)) && !room.inProgress)
    {
      if room.currentQuestionIndex >= |room.questions| {
        if fetched.Some? && fetched.value != [] {
          room.questions := fetched.value;
          room.currentQuestionIndex := 0;
        } else {
          EndGameDueToError(room);
        }
        if room.questions == [] {
          return;
        }
      }
      if room.currentQuestionIndex < |room.questions| {
        room.currentQuestion := Some(room.questions[room.currentQuestionIndex]);
        room.currentQuestionIndex := room.currentQuestionIndex + 1;
      }
    }

    /** `start_game`: a room already in progress is left alone; otherwise
        the game starts with every score at 0 and no answers, and the first
        question is asked. */
    method StartGame(room: GameRoom, fetched: Option<seq<Question>>)
      requires Valid() && room in rooms
      modifies this`rooms, room, (set p | p in room.players)`score, (set p | p in room.players)`answered
      ensures Valid()
      ensures old(room.inProgress) ==> unchanged(this, room) && forall p :: p in room.players ==> unchanged(p)
      ensures !old(room.inProgress) ==>
        var step := NextQuestion(old(room.questions), old(room.currentQuestionIndex), fetched);
        && (step.Ask? ==> AskedNext(room, step) && room.players == old(room.players) && room.inProgress)
        && (step.Ask? ==> forall p :: p in room.players ==> p.score == 0 && !p.answered)
        && (step == FetchFailed ==> TornDown(room, old(room.players)) && !room.inProgress)
    {
      if room.inProgress {
        return;
      }
      room.inProgress := true;
      ResetPlayers(room.players);
      FetchAndBroadcastQuestion(room, fetched);
    }

    /** `end_round`: when some player has reached the winning score (one
        winner or a tie alike) the game is over and the room is torn down;
        otherwise every answer is cleared and the next question is asked. */
    method EndRound(room: GameRoom, fetched: Option<seq<Question>>) returns (gameOver: bool)
      requires Valid() && room in rooms
      modifies this`rooms, room, (set p | p in room.players)`score, (set p | p in room.players)`answered
      ensures Valid()
      ensures gameOver <==> exists p :: p in old(room.players) && old(p.score) >= WinningScore
      ensures gameOver ==> TornDown(room, old(room.players)) && !room.inProgress
      ensures !gameOver ==>
        var step := NextQuestion(old(room.questions), old(room.currentQuestionIndex), fetched);
        && (step.Ask? ==> AskedNext(room, step) && room.players == old(room.players))
        && (step.Ask? ==> room.inProgress == old(room.inProgress))
        && (step.Ask? ==> forall p :: p in room.players ==> p.score == old(p.score) && !p.answered)
        && (step == FetchFailed ==> TornDown(room, old(room.players)) && !room.inProgress)
    {
      gameOver := CountAtLeast(Scores(room.players), WinningScore) > 0;
      WinnerExists(room.players);
      if gameOver {
        room.inProgress := false;
        ResetRoom(room);
      } else {
        ClearAnswers(room.players);
        FetchAndBroadcastQuestion(room, fetched);
      }
    }

    /** What answering the current question of `room` did, for the room's
        `members` before the answer: the answerer scores one point exactly
        when the answer matches ignoring case and is marked answered (even a
        second time); the round ends exactly when every other member had
        already answered; the game is over when someone has now reached the
        winning score, and then the room is torn down; otherwise the answers
        are cleared and the next question is asked. */
    twostate predicate Answered(room: GameRoom, members: seq<Player>, player: Player, answer: string,
                                fetched: Option<seq<Question>>, outcome: AnswerOutcome)
      requires old(room.currentQuestion).Some?
      reads this, room, player, set p | p in members
    {
      var credit := Credit(answer, old(room.currentQuestion).value);
      var step := NextQuestion(old(room.questions), old(room.currentQuestionIndex), fetched);
      && outcome != NoActiveQuestion
      && (outcome.RoundEnded? <==> forall p :: p in members && p != player ==> old(p.answered))
      && (outcome == Recorded ==>
            && rooms == old(rooms) && unchanged(room)
            && player.score == old(player.score) + credit && player.answered
            && (forall p :: p in members && p != player ==> unchanged(p)))
      && (outcome.RoundEnded? ==>
            (outcome.gameOver <==> exists p :: p in members && NewScore(p, old(p.score), player, credit) >= WinningScore))
      && (outcome == RoundEnded(true) ==> TornDown(room, members) && !room.inProgress)
      && (outcome == RoundEnded(false) && step.Ask? ==>
            && AskedNext(room, step) && room.players == members && room.inProgress == old(room.inProgress)
            && (forall p :: p in members ==> p.score == NewScore(p, old(p.score), player, credit) && !p.answered))
      && (outcome == RoundEnded(false) && step == FetchFailed ==> TornDown(room, members) && !room.inProgress)
    }

    /** `process_answer`. Without a room or a question being asked the
        answer is refused and nothing changes; otherwise only the player's
        room and its members change, as `Answered` says. */
    method ProcessAnswer(player: Player, answer: string, fetched: Option<seq<Question>>) returns (outcome: AnswerOutcome)
      requires Valid()
      modifies this`rooms, Rooms(), Members()`score, Members()`answered
      ensures Valid()
      ensures outcome == NoActiveQuestion <==>
        old(GetPlayerRoom(player)).None? || old(GetPlayerRoom(player).value.currentQuestion).None?
      ensures outcome == NoActiveQuestion ==>
        && rooms == old(rooms)
        && (forall r :: r in old(rooms) ==> unchanged(r))
        && (forall p :: p in old(Members()) ==> unchanged(p))
      ensures outcome != NoActiveQuestion ==>
        var room := old(GetPlayerRoom(player)).value;
        && old(room.currentQuestion).Some?
        && Answered(room, old(room.players), player, answer, fetched, outcome)
        && (forall r :: r in old(rooms) && r != room ==> unchanged(r))
        && (forall p :: p in old(Members()) && p !in old(room.players) ==> unchanged(p))
    {
      var found := GetPlayerRoom(player);
      if found.None? || found.value.currentQuestion.None? {
        return NoActiveQuestion;
      }
      MembersOf(found.value);
      outcome := AnswerInRoom(found.value, player, answer, fetched);
    }

    /** The part of `process_answer` after the room and its question are
        found. */
    method AnswerInRoom(room: GameRoom, player: Player, answer: string, fetched: Option<seq<Question>>)
      returns (outcome: AnswerOutcome)
      requires Valid() && room in rooms && player in room.players && room.currentQuestion.Some?
      modifies this`rooms, room, (set p | p in room.players)`score, (set p | p in room.players)`answered
      ensures Valid()
      ensures Answered(room, old(room.players), player, answer, fetched, outcome)
    {
      var credit := Credit(answer, room.currentQuestion.value);
      player.score := player.score + credit;
      player.answered := true;
      if AllAnswered(room.players) {
        var gameOver := EndRound(room, fetched);
        outcome := RoundEnded(gameOver);
      } else {
        outcome := Recorded;
      }
    }

    /** A created room is appended in dictionary order: the dictionary gets a
        new key. */
    method CreateGameRoom(player: Player, newId: RoomId) returns (created: bool)
      requires Valid()
      requires forall r :: r in rooms ==> r.roomId != newId
      modifies this`rooms
      ensures Valid()
      ensures created <==> old(GetPlayerRoom(player)).None?
      ensures !created ==> rooms == old(rooms)
      ensures created ==> |rooms| == |old(rooms)| + 1 && rooms[..|old(rooms)|] == old(rooms)
      ensures created ==> var room := rooms[|old(rooms)|];
        && fresh(room) && room.roomId == newId && room.maxPlayers == maxPlayersPerRoom
        && room.players == [player] && !room.inProgress
        && room.questions == [] && room.currentQuestion == None && room.currentQuestionIndex == 0
    {
      if GetPlayerRoom(player).Some? {
        return false;
      }
      var room := new GameRoom(newId, maxPlayersPerRoom);
      room.players := [player];
      rooms := rooms + [room];
      ValidAfterAddition(room);
      assert rooms[..|old(rooms)|] == old(rooms);
      created := true;
    }

    /** What a successful join did to `room`, whose `members` are its old
        players followed by the joining one: the game starts, as `start_game`
        starts it, exactly when the join fills the room; otherwise nothing
        else changes. */
    twostate predicate Joined(room: GameRoom, members: seq<Player>, fetched: Option<seq<Question>>)
      reads this, room, set p | p in members
    {
      var step := NextQuestion(old(room.questions), old(room.currentQuestionIndex), fetched);
      && (|members| != room.maxPlayers ==>
            && rooms == old(rooms) && room.players == members
            && room.inProgress == old(room.inProgress) && room.questions == old(room.questions)
            && room.currentQuestion == old(room.currentQuestion)
            && room.currentQuestionIndex == old(room.currentQuestionIndex)
            && (forall p :: p in members ==> unchanged(p)))
      && (|members| == room.maxPlayers && step.Ask? ==>
            && AskedNext(room, step) && room.players == members && room.inProgress
            && (forall p :: p in members ==> p.score == 0 && !p.answered))
      && (|members| == room.maxPlayers && step == FetchFailed ==>
            TornDown(room, members) && !room.inProgress)
    }

    /** `join_game_room`. A player already in a room, or one with no open
        room to go to, is refused and nothing changes. Otherwise the player
        is appended to the first open room in dictionary order, and a join
        that fills the room starts its game. */
    method JoinGameRoom(player: Player, fetched: Option<seq<Question>>) returns (joined: Option<RoomId>)
      requires Valid()
      modifies this`rooms, Rooms(), Members()`score, Members()`answered, player`score, player`answered
      ensures Valid()
      ensures joined.None? <==> old(GetPlayerRoom(player)).Some? || old(FirstOpenRoom(rooms)) == old(|rooms|)
      ensures joined.None? ==>
        && rooms == old(rooms) && unchanged(player)
        && (forall r :: r in old(rooms) ==> unchanged(r))
        && (forall p :: p in old(Members()) ==> unchanged(p))
      ensures joined.Some? ==>
        var room := old(rooms[FirstOpenRoom(rooms)]);
        && joined.value == room.roomId
        && Joined(room, old(room.players) + [player], fetched)
        && (forall r :: r in old(rooms) && r != room ==> unchanged(r))
        && (forall p :: p in old(Members()) && p !in old(room.players) ==> unchanged(p))
    {
      if GetPlayerRoom(player).Some? {
        return None;
      }
      var i := 0;
      while i < |rooms| && !rooms[i].IsOpen()
        invariant i <= |rooms|
        invariant forall j :: 0 <= j < i ==> !rooms[j].IsOpen()
      {
        i := i + 1;
      }
      FirstOpenRoomIs(rooms, i);
      if i == |rooms| {
        return None;
      }
      MembersOf(rooms[i]);
      joined := Some(rooms[i].roomId);
      JoinRoom(rooms[i], player, fetched);
    }

    /** The part of `join_game_room` after an open room is found. */
    method JoinRoom(room: GameRoom, player: Player, fetched: Option<seq<Question>>)
      requires Valid() && room in rooms && room.IsOpen() && GetPlayerRoom(player).None?
      modifies this`rooms, room, player`score, player`answered
      modifies (set p | p in room.players)`score, (set p | p in room.players)`answered
      ensures Valid()
      ensures Joined(room, old(room.players) + [player], fetched)
    {
      room.players := room.players + [player];
      ValidAfterPlayersChange(room);
      if |room.players| >= room.maxPlayers {
        StartGame(room, fetched);
      }
    }

    /** What leaving did to `room`, whose `remaining` players are its old
        ones without the one who left: a room left empty is deleted; a game
        in progress left with too few players is torn down; otherwise only
        the player list changed. */
    twostate predicate Left(room: GameRoom, remaining: seq<Player>)
      reads this, room, set p | p in remaining
    {
      && (remaining == [] ==>
            && rooms == RemoveFirst(old(rooms), room) && room.players == []
            && room.inProgress == old(room.inProgress) && room.questions == old(room.questions)
            && room.currentQuestion == old(room.currentQuestion)
            && room.currentQuestionIndex == old(room.currentQuestionIndex))
      && (remaining != [] && old(room.inProgress) && |remaining| < MinPlayersInGame ==>
            TornDown(room, remaining) && !room.inProgress)
      && (remaining != [] && !(old(room.inProgress) && |remaining| < MinPlayersInGame) ==>
            && rooms == old(rooms) && room.players == remaining
            && room.inProgress == old(room.inProgress) && room.questions == old(room.questions)
            && room.currentQuestion == old(room.currentQuestion)
            && room.currentQuestionIndex == old(room.currentQuestionIndex)
            && (forall p :: p in remaining ==> unchanged(p)))
    }

    /** The room part of `disconnect`: the player leaves their room, if any.
        The player's own fields are untouched. */
    method Disconnect(player: Player)
      requires Valid()
      modifies this`rooms, Rooms(), Members()`score, Members()`answered
      ensures Valid()
      ensures unchanged(player)
      ensures old(GetPlayerRoom(player)).None? ==>
        && rooms == old(rooms)
        && (forall r :: r in old(rooms) ==> unchanged(r))
        && (forall p :: p in old(Members()) ==> unchanged(p))
      ensures old(GetPlayerRoom(player)).Some? ==>
        var room := old(GetPlayerRoom(player)).value;
        var remaining := RemoveFirst(old(room.players), player);
        && Left(room, remaining)
        && (forall r :: r in old(rooms) && r != room ==> unchanged(r))
        && (forall p :: p in old(Members()) && p !in remaining ==> unchanged(p))
    {
      var found := GetPlayerRoom(player);
      if found.None? {
        return;
      }
      LeaveFoundRoom(found.value, player);
    }

    /** `disconnect` once the player's room is known. */
    method LeaveFoundRoom(room: GameRoom, player: Player)
      requires Valid() && GetPlayerRoom(player) == Some(room)
      modifies this`rooms, Rooms(), Members()`score, Members()`answered
      ensures Valid()
      ensures unchanged(player)
      ensures var remaining := RemoveFirst(old(room.players), player);
        && Left(room, remaining)
        && (forall r :: r in old(rooms) && r != room ==> unchanged(r))
        && (forall p :: p in old(Members()) && p !in remaining ==> unchanged(p))
    {
      MembersOf(room);
      RemoveFirstDistinct(room.players, player);
      LeaveRoom(room, player);
    }

    /** The part of `disconnect` after the player's room is found. */
    method LeaveRoom(room: GameRoom, player: Player)
      requires Valid() && room in rooms && player in room.players
      modifies this`rooms, room, (set p | p in room.players && p != player)`score
      modifies (set p | p in room.players && p != player)`answered
      ensures Valid()
      ensures Left(room, RemoveFirst(old(room.players), player))
    {
      RemoveFirstDistinct(room.players, player);
      room.players := RemoveFirst(room.players, player);
      if room.players == [] {
        rooms := RemoveFirst(rooms, room);
        ValidAfterRemoval(room);
      } else {
        ValidAfterPlayersChange(room);
        if room.inProgress && |room.players| < MinPlayersInGame {
          EndGameDueToError(room);
        }
      }
    }
  }

  /** The position of the first room in `rooms` that lists `player`, or
      `|rooms|` if none does. */
  function FirstRoomWith(rooms: seq<GameRoom>, player: Player): (i: nat)
    reads set r | r in rooms
    ensures i <= |rooms|
    ensures i < |rooms| ==> player in rooms[i].players
    ensures forall j :: 0 <= j < i ==> player !in rooms[j].players
  {
    if rooms == [] then 0
    else if player in rooms[0].players then 0
    else 1 + FirstRoomWith(rooms[1..], player)
  }

  /** The position of the first open room in `rooms`, or `|rooms|` if none
      is open: the room `join_game_room` picks. */
  function FirstOpenRoom(rooms: seq<GameRoom>): (i: nat)
    reads set r | r in rooms
    ensures i <= |rooms|
    ensures i < |rooms| ==> rooms[i].IsOpen()
    ensures forall j :: 0 <= j < i ==> !rooms[j].IsOpen()
  {
    if rooms == [] then 0
    else if rooms[0].IsOpen() then 0
    else 1 + FirstOpenRoom(rooms[1..])
  }

  /** An index before which no room is open, and which is open or the end,
      is the first open room. */
  lemma FirstOpenRoomIs(rooms: seq<GameRoom>, i: nat)
    requires i <= |rooms| && (i < |rooms| ==> rooms[i].IsOpen())
    requires forall j :: 0 <= j < i ==> !rooms[j].IsOpen()
    ensures FirstOpenRoom(rooms) == i
  {
  }
}
