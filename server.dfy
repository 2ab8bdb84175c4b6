/** The second server prototype (`server.py`): public and private rooms, a
    round state machine driven by `game_state`, questions taken from a FIFO
    queue, a tie-breaker, and the hand-off of the creator role. Messages to
    players are left out. */
module Server {
  import opened Wrappers
  import opened Text
  import opened Trivia
  import opened Lists

  /** `max_players` of a public room. */
  const PublicCapacity: nat := 5
  /** `max_players` of any other room. */
  const PrivateCapacity: nat := 2
  /** The score with which a player wins. */
  const WinningScore: nat := 10
  /** `start_game` needs this many players. */
  const MinPlayersToStart: nat := 2

  datatype GameState = Waiting | QuestionSetup | AskingQuestion | WaitingForNextRound | Finished

  type RoomId = string

  /** The answers `receive_answer` accepts, once lowered. */
  predicate IsValidAnswer(lowered: string)
  {
    lowered == "true" || lowered == "false"
  }

  /** How `receive_answer` judges an answer: not "true" or "false" once
      lowered, or accepted with the points it earns. */
  datatype Verdict = Invalid | Accepted(credit: nat)

  /** An answer is accepted exactly when it lowers to "true" or "false", and
      then earns one point exactly when it equals the lowered correct
      answer. */
  function Judge(answer: string, q: Question): (v: Verdict)
    ensures v.Invalid? <==> !IsValidAnswer(Lower(answer))
    ensures v.Accepted? ==> v.credit <= 1 && (v.credit == 1 <==> Lower(answer) == Lower(q.correctAnswer))
  {
    var lowered := Lower(answer);
    if !IsValidAnswer(lowered) then Invalid
    else if lowered == Lower(q.correctAnswer) then Accepted(1)
    else Accepted(0)
  }

  /** `receive_answer` ignores the case of the answer it is sent. */
  lemma JudgeIgnoresCase(answer: string, q: Question)
    ensures Judge(Lower(answer), q) == Judge(answer, q)
  {
    LowerIdempotent(answer);
  }

  /** `max_players` for a room type: 5 for "public", 2 for any other. */
  function Capacity(roomType: string): nat
  {
    if roomType == "public" then PublicCapacity else PrivateCapacity
  }

  /** One connected player. */
  class Player {
    var score: nat
    var answered: bool
    /** `current_room`: the id of the room last created or joined; before
        either, the attribute does not exist. */
    var currentRoom: Option<RoomId>

    constructor ()
      ensures score == 0 && !answered && currentRoom == None
    {
      score := 0;
      answered := false;
      currentRoom := None;
    }
  }

  /** One game room. */
  class GameRoom {
    const roomId: RoomId
    const roomType: string
    const isPrivate: bool
    const maxPlayers: nat
    var creator: Player
    var players: seq<Player>
    var inProgress: bool
    var gameState: GameState
    var questionQueue: seq<Question>
    var currentQuestion: Option<Question>

    /** A new room holds its creator alone and waits. */
    constructor (roomId: RoomId, roomType: string, creator: Player, isPrivate: bool)
      ensures this.roomId == roomId && this.roomType == roomType && this.isPrivate == isPrivate
      ensures this.creator == creator && players == [creator]
      ensures maxPlayers == Capacity(roomType) && maxPlayers >= MinPlayersToStart
      ensures !inProgress && gameState == Waiting
      ensures questionQueue == [] && currentQuestion == None
    {
      this.roomId := roomId;
      this.roomType := roomType;
      this.isPrivate := isPrivate;
      this.maxPlayers := Capacity(roomType);
      this.creator := creator;
      players := [creator];
      inProgress := false;
      gameState := Waiting;
      questionQueue := [];
      currentQuestion := None;
    }

    /** The test of `find_available_public_game`. */
    predicate IsAvailablePublic()
      reads this
    {
      roomType == "public" && !isPrivate && |players| < maxPlayers && !inProgress
    }
  }

  /** A question taken off the queue, and what remains queued. */
  datatype Popped = Popped(question: Question, queue: seq<Question>)

  /** The queue part of `fetch_question`: the front of the queue is taken;
      only an empty queue is refilled, from `fetched` (`None` for a non-200
      status). A non-200 status, or a batch with no questions (on which
      `pop(0)` raises), yields no question. */
  function PopQuestion(queue: seq<Question>, fetched: Option<seq<Question>>): (r: Option<Popped>)
    ensures queue != [] ==> r.Some?
    ensures queue == [] ==> (r.Some? <==> fetched.Some? && fetched.value != [])
    ensures r.Some? ==> [r.value.question] + r.value.queue == if queue != [] then queue else fetched.value
  {
    if queue != [] then Some(Popped(queue[0], queue[1..]))
    else if fetched.Some? && fetched.value != [] then Some(Popped(fetched.value[0], fetched.value[1..]))
    else None
  }

  /** The questions asked by successive `fetch_question` calls, one per
      entry of `fetches`, stopping at the first call that yields none. */
  function AskedQuestions(queue: seq<Question>, fetches: seq<Option<seq<Question>>>): seq<Question>
    decreases |fetches|
  {
    if fetches == [] then []
    else match PopQuestion(queue, fetches[0])
      case Some(p) => [p.question] + AskedQuestions(p.queue, fetches[1..])
      case None => []
  }

  /** The queue is first in, first out: as long as it lasts, successive
      calls ask its questions in order and never use a fetched batch. */
  lemma {:induction false} QueueIsFifo(queue: seq<Question>, fetches: seq<Option<seq<Question>>>)
    requires |fetches| <= |queue|
    ensures AskedQuestions(queue, fetches) == queue[..|fetches|]
    decreases |fetches|
  {
    if fetches != [] {
      var p := PopQuestion(queue, fetches[0]).value;
      assert p.question == queue[0] && p.queue == queue[1..] by {
        assert [p.question] + p.queue == queue;
        assert ([p.question] + p.queue)[0] == p.question;
        assert ([p.question] + p.queue)[1..] == p.queue;
      }
      QueueIsFifo(p.queue, fetches[1..]);
      assert queue[..|fetches|] == [queue[0]] + queue[1..][..|fetches| - 1];
    }
  }

  /** Every player of `players` has answered. */
  predicate AllAnswered(players: seq<Player>)
    reads set p | p in players
  {
    forall i :: 0 <= i < |players| ==> players[i].answered
  }

  /** The scores of `players`, in join order (a player listed twice counts
      twice, as in the list of winners). */
  function Scores(players: seq<Player>): (s: seq<nat>)
    reads set p | p in players
    ensures |s| == |players| && forall i :: 0 <= i < |players| ==> s[i] == players[i].score
  {
    if players == [] then [] else [players[0].score] + Scores(players[1..])
  }

  /** `Scores` depends on the players' scores alone. */
  twostate lemma {:induction false} ScoresUnchanged(players: seq<Player>)
    requires forall p :: p in players ==> p.score == old(p.score)
    ensures Scores(players) == old(Scores(players))
    decreases |players|
  {
    if players != [] {
      ScoresUnchanged(players[1..]);
    }
  }

  /** How `complete_round` went. */
  datatype RoundResult = GameWon | TieBreak | NextRound

  /** `complete_round`'s decision on the number of entries at the winning
      score: one wins, more tie, none play on. */
  function ResultFor(winners: nat): (r: RoundResult)
  {
    if winners == 1 then GameWon else if winners > 1 then TieBreak else NextRound
  }

  /** What `complete_round` decides, in terms of the players' scores: the
      game is won when one list entry alone has reached 10 points. */
  lemma GameWonMeaning(players: seq<Player>)
    ensures ResultFor(CountAtLeast(Scores(players), WinningScore)) == GameWon <==>
      exists k :: 0 <= k < |players| && players[k].score >= WinningScore
        && forall j :: 0 <= j < |players| && players[j].score >= WinningScore ==> j == k
  {
    CountAtLeastOne(Scores(players), WinningScore);
  }

  /** The round goes to a tie-breaker when two list entries have reached
      10 points. */
  lemma TieBreakMeaning(players: seq<Player>)
    ensures ResultFor(CountAtLeast(Scores(players), WinningScore)) == TieBreak <==>
      exists i, j :: 0 <= i < j < |players| && players[i].score >= WinningScore && players[j].score >= WinningScore
  {
    CountAtLeastTwo(Scores(players), WinningScore);
  }

  /** What `process_answer` came to. */
  datatype AnswerOutcome = Ignored | Answered | RoundCompleted(result: RoundResult)

  /** What `start_game` came to. */
  datatype StartOutcome = NotCreator | NotEnoughPlayers | Started

  /** A join request: `room_type` "public", or anything else together with
      the optional `room_id` of a private room. */
  datatype JoinRequest = JoinPublic | JoinPrivate(roomId: Option<RoomId>)

  /** The position of the first available public room, or `|rooms|`. */
  function FirstAvailablePublic(rooms: seq<GameRoom>): (i: nat)
    reads set r | r in rooms
    ensures i <= |rooms|
    ensures i < |rooms| ==> rooms[i].IsAvailablePublic()
    ensures forall j :: 0 <= j < i ==> !rooms[j].IsAvailablePublic()
  {
    if rooms == [] then 0
    else if rooms[0].IsAvailablePublic() then 0
    else 1 + FirstAvailablePublic(rooms[1..])
  }

  /** `find_available_public_game`: the first room, in dictionary order,
      that is public, not private, not full and not in progress. */
  function FindAvailablePublicGame(rooms: seq<GameRoom>): (r: Option<GameRoom>)
    reads set x | x in rooms
    ensures r.None? <==> forall x :: x in rooms ==> !x.IsAvailablePublic()
    ensures r.Some? ==> exists i :: (0 <= i < |rooms| && rooms[i] == r.value && r.value.IsAvailablePublic()
      && forall j :: 0 <= j < i ==> !rooms[j].IsAvailablePublic())
  {
    var i := FirstAvailablePublic(rooms);
    if i < |rooms| then Some(rooms[i]) else None
  }

  /** The position of the room with id `id`, or `|rooms|`. */
  function RoomIndex(rooms: seq<GameRoom>, id: RoomId): (i: nat)
    ensures i <= |rooms|
    ensures i < |rooms| ==> rooms[i].roomId == id
    ensures forall j :: 0 <= j < i ==> rooms[j].roomId != id
  {
    if rooms == [] then 0
    else if rooms[0].roomId == id then 0
    else 1 + RoomIndex(rooms[1..], id)
  }

  /** The room manager of `GameServer`. Rooms are kept in the order the
      `rooms` dictionary iterates them, which is creation order. */
  class GameServer {
    var rooms: seq<GameRoom>

    constructor ()
      ensures rooms == [] && Valid()
    {
      rooms := [];
    }

    ghost function Rooms(): set<GameRoom>
      reads this
    {
      set r | r in rooms
    }

    /** Every player listed in some room. */
    ghost function Members(): set<Player>
      reads this, Rooms()
    {
      set r, p | r in rooms && p in r.players :: p
    }

    /** The room manager's invariant: room ids are unique (the dictionary's
        keys); a room is never empty, never over capacity and always lists
        its creator; a finished room is no longer listed; and a room that
        asks a question has one. */
    ghost predicate Valid()
      reads this, Rooms()
    {
      && Distinct(rooms)
      && (forall r1, r2 :: r1 in rooms && r2 in rooms && r1.roomId == r2.roomId ==> r1 == r2)
      && (forall r :: r in rooms ==> r.players != [] && |r.players| <= r.maxPlayers && r.creator in r.players)
      && (forall r :: r in rooms ==> r.gameState != Finished)
      && (forall r :: r in rooms ==> r.gameState == AskingQuestion ==> r.currentQuestion.Some?)
    }

    /** Every player of a listed room is a member. */
    lemma MembersOf(room: GameRoom)
      requires room in rooms
      ensures forall p :: p in room.players ==> p in Members()
    {
    }

    /** The invariant survives a change to one room that keeps it valid on
        its own. */
    twostate lemma ValidAfterRoomChange(room: GameRoom)
      requires old(Valid()) && room in old(rooms) && rooms == old(rooms)
      requires forall r :: r in rooms && r != room ==> unchanged(r)
      requires room.players != [] && |room.players| <= room.maxPlayers && room.creator in room.players
      requires room.gameState != Finished && (room.gameState == AskingQuestion ==> room.currentQuestion.Some?)
      ensures Valid()
    {
    }

    /** The invariant survives deleting a room. */
    twostate lemma ValidAfterRemoval(room: GameRoom)
      requires old(Valid()) && rooms == RemoveFirst(old(rooms), room)
      requires forall r :: r in old(rooms) && r != room ==> unchanged(r)
      ensures Valid()
    {
      RemoveFirstDistinct(old(rooms), room);
    }

    /** `self.rooms.get(room_id)`. */
    function FindRoom(id: RoomId): (r: Option<GameRoom>)
      reads this
      ensures r.Some? ==> r.value in rooms && r.value.roomId == id
      ensures r.None? <==> forall x :: x in rooms ==> x.roomId != id
    {
      var i := RoomIndex(rooms, id);
      if i < |rooms| then Some(rooms[i]) else None
    }

    /** The room `player.current_room` names, if it is still listed. */
    function PlayerRoom(player: Player): (r: Option<GameRoom>)
      reads this, player
      ensures r.Some? ==> r.value in rooms && player.currentRoom == Some(r.value.roomId)
      ensures r.None? <==> player.currentRoom.None? || forall x :: x in rooms ==> x.roomId != player.currentRoom.value
    {
      if player.currentRoom.Some? then FindRoom(player.currentRoom.value) else None
    }

    /** Under the invariant a room id names one room. */
    lemma FindRoomUnique(room: GameRoom)
      requires Valid() && room in rooms
      ensures FindRoom(room.roomId) == Some(room)
    {
    }

    /** `create_game`: a new room of the requested type (default "public";
        private exactly when the type is "private") with the player as its
        creator and sole member; the player's current room becomes it. A
        player already in another room stays listed there. */
    method CreateGame(player: Player, roomType: string, newId: RoomId)
      requires Valid()
      requires forall r :: r in rooms ==> r.roomId != newId
      modifies this`rooms, player`currentRoom
      ensures Valid()
      ensures |rooms| == |old(rooms)| + 1 && rooms[..|old(rooms)|] == old(rooms)
      ensures var room := rooms[|old(rooms)|];
        && fresh(room) && room.roomId == newId && room.roomType == roomType
        && room.isPrivate == (roomType == "private") && room.maxPlayers == Capacity(roomType)
        && room.creator == player && room.players == [player]
        && !room.inProgress && room.gameState == Waiting
        && room.questionQueue == [] && room.currentQuestion == None
      ensures player.currentRoom == Some(newId)
    {
      var room := new GameRoom(newId, roomType, player, roomType == "private");
      rooms := rooms + [room];
      player.currentRoom := Some(newId);
      assert rooms[..|old(rooms)|] == old(rooms);
      assert forall r :: r in rooms ==> r in old(rooms) || r == room;
    }

    /** The room a join request goes to: the first available public room,
        or the private room with the given id while it has a free place. */
    function JoinTarget(request: JoinRequest): (r: Option<GameRoom>)
      requires Valid()
      reads this, Rooms()
      ensures r.Some? ==> r.value in rooms && |r.value.players| < r.value.maxPlayers
      ensures request.JoinPublic? ==> r == FindAvailablePublicGame(rooms)
      ensures request.JoinPrivate? ==>
        (r.Some? <==> request.roomId.Some? && exists x :: (x in rooms && x.roomId == request.roomId.value
                        && x.isPrivate && |x.players| < x.maxPlayers))
    {
      match request
      case JoinPublic => FindAvailablePublicGame(rooms)
      case JoinPrivate(id) =>
        if id.None? then None
        else
          var found := FindRoom(id.value);
          if found.Some? && found.value.isPrivate && |found.value.players| < found.value.maxPlayers
          then found
          else None
    }

    /** `join_game`. The player is added to the room the request names;
        when there is none, nothing changes. A private room is joined even
        while its game is in progress. */
    method JoinGame(player: Player, request: JoinRequest) returns (joined: bool)
      requires Valid()
      modifies Rooms(), player`currentRoom
      ensures Valid()
      ensures joined <==> old(JoinTarget(request)).Some?
      ensures !joined ==> unchanged(player) && forall r :: r in rooms ==> unchanged(r)
      ensures joined ==> var room := old(JoinTarget(request)).value;
        && room.players == old(room.players) + [player]
        && player.currentRoom == Some(room.roomId)
        && room.creator == old(room.creator) && room.gameState == old(room.gameState)
        && room.inProgress == old(room.inProgress)
        && room.questionQueue == old(room.questionQueue) && room.currentQuestion == old(room.currentQuestion)
        && (forall r :: r in rooms && r != room ==> unchanged(r))
    {
      var target: Option<GameRoom>;
      match request {
        case JoinPublic =>
          target := FindAvailablePublicGame(rooms);
        case JoinPrivate(id) =>
          target := None;
          if id.Some? {
            var room := FindRoom(id.value);
            if room.Some? && room.value.isPrivate && |room.value.players| < room.value.maxPlayers {
              target := room;
            }
          }
      }
      if target.None? {
        return false;
      }
      AddPlayerToRoom(player, target.value);
      joined := true;
    }

    /** `add_player_to_room`: the player goes to the end of the room's list
        and the room becomes the player's current room. */
    method AddPlayerToRoom(player: Player, room: GameRoom)
      requires Valid() && room in rooms && |room.players| < room.maxPlayers
      modifies room`players, player`currentRoom
      ensures Valid()
      ensures room.players == old(room.players) + [player]
      ensures player.currentRoom == Some(room.roomId)
    {
      room.players := room.players + [player];
      player.currentRoom := Some(room.roomId);
      ValidAfterRoomChange(room);
    }

    /** The room took the question `PopQuestion` yields and now asks it; if
        there was none, its queue is as before, and it is left in state
        `stateIfNone` with question `questionIfNone`. */
    twostate predicate QuestionFetched(room: GameRoom, fetched: Option<seq<Question>>,
                                       stateIfNone: GameState, questionIfNone: Option<Question>)
      reads room
    {
      match PopQuestion(old(room.questionQueue), fetched)
      case Some(p) =>
        room.currentQuestion == Some(p.question) && room.questionQueue == p.queue
        && room.gameState == AskingQuestion
      case None =>
        room.currentQuestion == questionIfNone && room.questionQueue == old(room.questionQueue)
        && room.gameState == stateIfNone
    }

    /** `fetch_question`: take the front of the queue, refilling an empty
        queue first, and ask it; without a question nothing changes. */
    method FetchQuestion(room: GameRoom, fetched: Option<seq<Question>>)
      requires Valid() && room in rooms
      modifies room`questionQueue, room`currentQuestion, room`gameState
      ensures Valid()
      ensures QuestionFetched(room, fetched, old(room.gameState), old(room.currentQuestion))
    {
      if room.questionQueue == [] {
        if fetched.None? || fetched.value == [] {
          return;
        }
        room.questionQueue := fetched.value;
      }
      room.currentQuestion := Some(room.questionQueue[0]);
      room.questionQueue := room.questionQueue[1..];
      room.gameState := AskingQuestion;
      ValidAfterRoomChange(room);
    }

    /** `start_game`. Only the creator of the player's current room may
        start it, and only with at least two players; then the game is in
        progress, set up, and the first question is fetched. Otherwise
        nothing changes. A game in progress may be started again; scores
        are not reset. */
    method StartGame(player: Player, fetched: Option<seq<Question>>) returns (outcome: StartOutcome)
      requires Valid()
      modifies Rooms()
      ensures Valid()
      ensures outcome == NotCreator <==> old(PlayerRoom(player)).None? || old(PlayerRoom(player).value.creator) != player
      ensures outcome == NotEnoughPlayers <==>
        old(PlayerRoom(player)).Some? && old(PlayerRoom(player).value.creator) == player
        && |old(PlayerRoom(player).value.players)| < MinPlayersToStart
      ensures outcome != Started ==> forall r :: r in rooms ==> unchanged(r)
      ensures outcome == Started ==> var room := old(PlayerRoom(player)).value;
        && room.inProgress
        && QuestionFetched(room, fetched, QuestionSetup, old(room.currentQuestion))
        && room.players == old(room.players) && room.creator == player
        && (forall r :: r in rooms && r != room ==> unchanged(r))
    {
      var found := PlayerRoom(player);
      if found.None? || found.value.creator != player {
        return NotCreator;
      }
      var room := found.value;
      if |room.players| < MinPlayersToStart {
        return NotEnoughPlayers;
      }
      room.inProgress := true;
      room.gameState := QuestionSetup;
      ValidAfterRoomChange(room);
      FetchQuestion(room, fetched);
      outcome := Started;
    }

    /** `reset_for_next_question`: no question, no answers, waiting. */
    method ResetForNextQuestion(room: GameRoom)
      requires Valid() && room in rooms
      modifies room`currentQuestion, room`gameState, set p | p in room.players
      ensures Valid()
      ensures room.currentQuestion == None && room.gameState == Waiting
      ensures forall p :: p in room.players ==> !p.answered && p.score == old(p.score)
      ensures forall p :: p in room.players ==> p.currentRoom == old(p.currentRoom)
    {
      room.currentQuestion := None;
      forall p | p in room.players {
        p.answered := false;
      }
      room.gameState := Waiting;
      ValidAfterRoomChange(room);
    }

    /** `del self.rooms[room_id]`: since ids are unique, deleting the entry
        for the room's id removes exactly this room. */
    method DeleteRoom(room: GameRoom)
      requires Valid() && room in rooms
      modifies this`rooms
      ensures Valid()
      ensures rooms == RemoveFirst(old(rooms), room) && room !in rooms
    {
      rooms := RemoveFirst(rooms, room);
      ValidAfterRemoval(room);
      RemoveFirstDistinct(old(rooms), room);
    }

    /** `end_game`: the game is finished and the room deleted. */
    method EndGame(room: GameRoom)
      requires Valid() && room in rooms
      modifies this`rooms, room`gameState
      ensures Valid()
      ensures rooms == RemoveFirst(old(rooms), room) && room.gameState == Finished
    {
      DeleteRoom(room);
      room.gameState := Finished;
    }

    /** The end of a round for the room's `members`, whose scores it does
        not change: with exactly one entry at the winning score the game is
        won and the room deleted; with more, a tie-breaker question is asked
        of everyone again; with none, the room is reset and the next
        question fetched (waiting if there is none). */
    twostate predicate RoundEnded(room: GameRoom, members: seq<Player>, fetched: Option<seq<Question>>, result: RoundResult)
      reads this, room, set p | p in members
    {
      var winners := CountAtLeast(Scores(members), WinningScore);
      && result == ResultFor(winners)
      && room.players == members && room.creator == old(room.creator) && room.inProgress == old(room.inProgress)
      && (result == GameWon ==>
            && rooms == RemoveFirst(old(rooms), room) && room.gameState == Finished
            && room.questionQueue == old(room.questionQueue) && room.currentQuestion == old(room.currentQuestion))
      && (result == TieBreak ==>
            && rooms == old(rooms) && QuestionFetched(room, fetched, AskingQuestion, old(room.currentQuestion))
            && forall p :: p in members ==> !p.answered)
      && (result == NextRound ==>
            && rooms == old(rooms) && QuestionFetched(room, fetched, Waiting, None)
            && forall p :: p in members ==> !p.answered)
    }

    /** `complete_round`, from a room asking a question. */
    method CompleteRound(room: GameRoom, fetched: Option<seq<Question>>) returns (result: RoundResult)
      requires Valid() && room in rooms && room.gameState == AskingQuestion
      modifies this`rooms, room`questionQueue, room`currentQuestion, room`gameState, set p | p in room.players
      ensures Valid()
      ensures RoundEnded(room, old(room.players), fetched, result)
      ensures result == GameWon ==> forall p :: p in old(room.players) ==> p.answered == old(p.answered)
      ensures forall p :: p in old(room.players) ==> p.score == old(p.score) && p.currentRoom == old(p.currentRoom)
    {
      result := ResultFor(CountAtLeast(Scores(room.players), WinningScore));
      match result {
        case GameWon =>
          EndGame(room);
        case TieBreak =>
          ProcessTieBreaker(room, fetched);
        case NextRound =>
          room.gameState := WaitingForNextRound;
          ValidAfterRoomChange(room);
          AdvanceRound(room, fetched);
      }
      ScoresUnchanged(old(room.players));
    }

    /** `process_tie_breaker`: the room asks again, everyone answers afresh,
        and the next question is fetched. (`prepare_question`, which the
        source calls here, does not exist; clearing the answers and fetching
        the next question is what the call is evidently meant to do.) */
    method ProcessTieBreaker(room: GameRoom, fetched: Option<seq<Question>>)
      requires Valid() && room in rooms && room.currentQuestion.Some?
      modifies room`questionQueue, room`currentQuestion, room`gameState, set p | p in room.players
      ensures Valid()
      ensures QuestionFetched(room, fetched, AskingQuestion, old(room.currentQuestion))
      ensures forall p :: p in room.players ==> !p.answered && p.score == old(p.score) && p.currentRoom == old(p.currentRoom)
    {
      room.gameState := AskingQuestion;
      forall p | p in room.players {
        p.answered := false;
      }
      ValidAfterRoomChange(room);
      FetchQuestion(room, fetched);
    }

    /** The `WAITING_FOR_NEXT_ROUND` step of `next_phase`: reset the room for
        the next question and fetch it. */
    method AdvanceRound(room: GameRoom, fetched: Option<seq<Question>>)
      requires Valid() && room in rooms
      modifies room`questionQueue, room`currentQuestion, room`gameState, set p | p in room.players
      ensures Valid()
      ensures QuestionFetched(room, fetched, Waiting, None)
      ensures forall p :: p in room.players ==> !p.answered && p.score == old(p.score) && p.currentRoom == old(p.currentRoom)
    {
      ResetForNextQuestion(room);
      FetchQuestion(room, fetched);
    }

    /** `next_phase`: one step of the round state machine. A waiting room
        fetches a question; a room being set up only broadcasts; a room
        asking a question completes the round once everyone has answered;
        a room waiting for the next round is reset and fetches. */
    method NextPhase(room: GameRoom, fetched: Option<seq<Question>>) returns (result: Option<RoundResult>)
      requires Valid() && room in rooms
      modifies this`rooms, room`questionQueue, room`currentQuestion, room`gameState, set p | p in room.players
      ensures Valid()
      ensures result.Some? <==> old(room.gameState) == AskingQuestion && old(AllAnswered(room.players))
      ensures result.Some? ==> RoundEnded(room, old(room.players), fetched, result.value)
      ensures old(room.gameState) == Waiting ==>
        rooms == old(rooms) && QuestionFetched(room, fetched, Waiting, old(room.currentQuestion))
      ensures old(room.gameState) == WaitingForNextRound ==>
        && rooms == old(rooms) && QuestionFetched(room, fetched, Waiting, None)
        && forall p :: p in room.players ==> !p.answered
      ensures result.None? && old(room.gameState) != Waiting && old(room.gameState) != WaitingForNextRound ==>
        rooms == old(rooms) && unchanged(room)
      ensures forall p :: p in old(room.players) ==> p.score == old(p.score) && p.currentRoom == old(p.currentRoom)
      ensures (result.None? || result == Some(GameWon)) && old(room.gameState) != WaitingForNextRound ==>
        forall p :: p in old(room.players) ==> p.answered == old(p.answered)
    {
      result := None;
      match room.gameState
      case Waiting =>
        FetchQuestion(room, fetched);
      case QuestionSetup =>
      case AskingQuestion =>
        if AllAnswered(room.players) {
          var r := CompleteRound(room, fetched);
          result := Some(r);
        }
      case WaitingForNextRound =>
        AdvanceRound(room, fetched);
      case Finished =>
    }

    /** The scoring part of `receive_answer`: the lowered answer counts only
        if it is "true" or "false"; then the player has answered, and scores
        one point exactly when it equals the lowered correct answer. An
        invalid answer changes nothing. */
    method ReceiveAnswer(room: GameRoom, player: Player, answer: string)
      requires room.currentQuestion.Some?
      modifies player`score, player`answered
      ensures match Judge(answer, room.currentQuestion.value)
        case Invalid => unchanged(player)
        case Accepted(credit) => player.answered && player.score == old(player.score) + credit
    {
      var lowered := Lower(answer);
      var correct := Lower(room.currentQuestion.value.correctAnswer);
      if lowered == "true" || lowered == "false" {
        if lowered == correct {
          player.score := player.score + 1;
        }
        player.answered := true;
      }
    }

    /** What one answer did to `room`, whose `members` are its players: the
        answerer's score and answered flag change as `ReceiveAnswer` says,
        and the round completes exactly when every member has now answered. */
    twostate predicate AnswerTaken(room: GameRoom, members: seq<Player>, player: Player, answer: string,
                                   fetched: Option<seq<Question>>, outcome: AnswerOutcome)
      requires old(room.currentQuestion).Some?
      reads this, room, player, set p | p in members
    {
      var verdict := Judge(answer, old(room.currentQuestion).value);
      var valid := verdict.Accepted?;
      var credit := if valid then verdict.credit else 0;
      && outcome != Ignored
      && player.score == old(player.score) + credit
      && player.currentRoom == old(player.currentRoom)
      && (forall p :: p in members && p != player ==> p.score == old(p.score) && p.currentRoom == old(p.currentRoom))
      && (outcome.RoundCompleted? <==> forall p :: p in members ==> old(p.answered) || (p == player && valid))
      && (outcome == Answered ==>
            && rooms == old(rooms) && unchanged(room)
            && player.answered == (old(player.answered) || valid)
            && forall p :: p in members && p != player ==> unchanged(p))
      && (outcome.RoundCompleted? ==> RoundEnded(room, members, fetched, outcome.result))
      && (outcome == RoundCompleted(GameWon) ==> forall p :: p in members ==> p.answered)
    }

    /** `process_answer`: an answer counts only while the player's current
        room asks a question; then, after `receive_answer`, the round is
        completed once everyone has answered. (The source checks this a
        second time in `receive_answer`; one check is what is meant.) */
    method ProcessAnswer(player: Player, answer: string, fetched: Option<seq<Question>>) returns (outcome: AnswerOutcome)
      requires Valid()
      modifies this`rooms, Rooms(), Members(), player
      ensures Valid()
      ensures outcome == Ignored <==>
        old(PlayerRoom(player)).None? || old(PlayerRoom(player).value.gameState) != AskingQuestion
      ensures outcome == Ignored ==>
        && rooms == old(rooms) && unchanged(player)
        && (forall r :: r in old(rooms) ==> unchanged(r))
        && (forall p :: p in old(Members()) ==> unchanged(p))
      ensures outcome != Ignored ==>
        var room := old(PlayerRoom(player)).value;
        && old(room.currentQuestion).Some?
        && AnswerTaken(room, old(room.players), player, answer, fetched, outcome)
        && (forall r :: r in old(rooms) && r != room ==> unchanged(r))
        && (forall p :: p in old(Members()) && p !in old(room.players) && p != player ==> unchanged(p))
    {
      var found := PlayerRoom(player);
      if found.None? || found.value.gameState != AskingQuestion {
        return Ignored;
      }
      MembersOf(found.value);
      outcome := AnswerInRoom(found.value, player, answer, fetched);
    }

    /** The part of `process_answer` after the room is found. */
    method AnswerInRoom(room: GameRoom, player: Player, answer: string, fetched: Option<seq<Question>>)
      returns (outcome: AnswerOutcome)
      requires Valid() && room in rooms && room.gameState == AskingQuestion
      modifies this`rooms, room`questionQueue, room`currentQuestion, room`gameState, player, set p | p in room.players
      ensures Valid()
      ensures AnswerTaken(room, old(room.players), player, answer, fetched, outcome)
    {
      ReceiveAnswer(room, player, answer);
      outcome := ConcludeAnswer(room, fetched);
    }

    /** The last test of `process_answer`: once every player has answered,
        the round is completed; until then nothing else changes. */
    method ConcludeAnswer(room: GameRoom, fetched: Option<seq<Question>>) returns (outcome: AnswerOutcome)
      requires Valid() && room in rooms && room.gameState == AskingQuestion
      modifies this`rooms, room`questionQueue, room`currentQuestion, room`gameState, set p | p in room.players
      ensures Valid()
      ensures outcome != Ignored
      ensures outcome.RoundCompleted? <==> old(AllAnswered(room.players))
      ensures outcome == Answered ==> unchanged(this, room) && forall p :: p in room.players ==> unchanged(p)
      ensures outcome.RoundCompleted? ==> RoundEnded(room, old(room.players), fetched, outcome.result)
      ensures outcome == RoundCompleted(GameWon) ==> forall p :: p in old(room.players) ==> p.answered
      ensures forall p :: p in old(room.players) ==> p.score == old(p.score) && p.currentRoom == old(p.currentRoom)
    {
      if AllAnswered(room.players) {
        var result := CompleteRound(room, fetched);
        outcome := RoundCompleted(result);
      } else {
        outcome := Answered;
      }
    }

    /** The room part of `disconnect` (with the connection as its only
        argument, as the call site means it): the player leaves the current
        room; a room left empty is deleted; a creator who leaves hands the
        role to the earliest remaining joiner. */
    method Disconnect(player: Player)
      requires Valid()
      modifies this`rooms, Rooms()
      ensures Valid()
      ensures old(PlayerRoom(player)).None? ==> rooms == old(rooms) && forall r :: r in rooms ==> unchanged(r)
      ensures old(PlayerRoom(player)).Some? ==>
        var room := old(PlayerRoom(player)).value;
        var remaining := RemoveFirst(old(room.players), player);
        && room.players == remaining
        && (remaining == [] ==> rooms == RemoveFirst(old(rooms), room) && room.creator == old(room.creator))
        && (remaining != [] ==> rooms == old(rooms))
        && (remaining != [] ==> room.creator == if old(room.creator) == player then remaining[0] else old(room.creator))
        && room.gameState == old(room.gameState) && room.inProgress == old(room.inProgress)
        && room.currentQuestion == old(room.currentQuestion) && room.questionQueue == old(room.questionQueue)
        && (forall r :: r in old(rooms) && r != room ==> unchanged(r))
    {
      var found := PlayerRoom(player);
      if found.None? {
        return;
      }
      LeaveFoundRoom(found.value, player);
    }

    /** `disconnect` once the player's room is known. */
    method LeaveFoundRoom(room: GameRoom, player: Player)
      requires Valid() && room in rooms
      modifies this`rooms, Rooms()
      ensures Valid()
      ensures var remaining := RemoveFirst(old(room.players), player);
        && room.players == remaining
        && (remaining == [] ==> rooms == RemoveFirst(old(rooms), room) && room.creator == old(room.creator))
        && (remaining != [] ==> rooms == old(rooms))
        && (remaining != [] ==> room.creator == if old(room.creator) == player then remaining[0] else old(room.creator))
        && room.gameState == old(room.gameState) && room.inProgress == old(room.inProgress)
        && room.currentQuestion == old(room.currentQuestion) && room.questionQueue == old(room.questionQueue)
        && (forall r :: r in old(rooms) && r != room ==> unchanged(r))
    {
      LeaveRoom(room, player);
    }

    /** The part of `disconnect` after the room is found. */
    method LeaveRoom(room: GameRoom, player: Player)
      requires Valid() && room in rooms
      modifies this`rooms, room`players, room`creator
      ensures Valid()
      ensures var remaining := RemoveFirst(old(room.players), player);
        && room.players == remaining
        && (remaining == [] ==> rooms == RemoveFirst(old(rooms), room) && room.creator == old(room.creator))
        && (remaining != [] ==> rooms == old(rooms))
        && (remaining != [] ==> room.creator == if old(room.creator) == player then remaining[0] else old(room.creator))
    {
      var remaining := RemoveFirst(room.players, player);
      if remaining == [] {
        DeleteRoom(room);
        room.players := [];
      } else {
        RemovePlayer(room, player);
      }
    }

    /** Taking a player out of a room that keeps other players; the creator
        role passes to the earliest remaining joiner if its holder left. */
    method RemovePlayer(room: GameRoom, player: Player)
      requires Valid() && room in rooms && RemoveFirst(room.players, player) != []
      modifies room`players, room`creator
      ensures Valid()
      ensures room.players == RemoveFirst(old(room.players), player)
      ensures old(room.creator) == player ==> room.creator == room.players[0]
      ensures old(room.creator) != player ==> room.creator == old(room.creator)
    {
      room.players := RemoveFirst(room.players, player);
      if room.creator == player {
        room.creator := room.players[0];
      } else {
        assert multiset(room.players)[room.creator] == multiset(old(room.players))[room.creator];
      }
      ValidAfterRoomChange(room);
    }
  }
}
