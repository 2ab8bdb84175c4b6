/** The client of the first prototype (`app/client.py`): the lines a user
    types become requests, and the client keeps two byte buffers, one it
    drains into the socket and one it peels frames from. */
module AppClient {
  import opened Wrappers
  import opened Text
  import opened Framing

  /** The requests the client sends. Each is a JSON object whose `action` is
      `join_game`, `create_game`, `disconnect`, `exit_room` or `answer`; an
      answer also carries the normalised answer text. */
  datatype Request = JoinGame | CreateGame | Disconnect | ExitRoom | Answer(answer: string)

  /** How a prompt ends: a request was chosen after reading `linesRead` input
      lines, the input ran out before a valid line, or (for the game menu)
      the server offered no options and nothing was asked. */
  datatype Prompted = Chosen(request: Request, linesRead: nat) | InputExhausted | NoOptions

  /** One line typed at the game menu, stripped: "1" joins, "2" creates,
      "3" disconnects, anything else is not a choice. */
  function MenuChoice(line: string): Option<Request>
  {
    var choice := Strip(line);
    if choice == "1" then Some(JoinGame)
    else if choice == "2" then Some(CreateGame)
    else if choice == "3" then Some(Disconnect)
    else None
  }

  /** Whitespace typed around a menu choice does not change it. */
  lemma MenuChoicePadded(front: string, line: string, back: string)
    requires forall k :: 0 <= k < |front| ==> IsSpace(front[k])
    requires forall k :: 0 <= k < |back| ==> IsSpace(back[k])
    ensures MenuChoice(front + line + back) == MenuChoice(line)
  {
    StripPadded(front, line, back);
  }

  /** `handle_game_menu`, with the lines `input()` would return given as
      `lines`. Without options it asks nothing; otherwise it re-asks (by
      calling itself) until a line is a menu choice, and sends the request
      that line names. */
  function HandleGameMenu(options: seq<string>, lines: seq<string>): (r: Prompted)
    ensures options == [] <==> r == NoOptions
    ensures r.Chosen? ==> 0 < r.linesRead <= |lines| && MenuChoice(lines[r.linesRead - 1]) == Some(r.request)
    decreases |lines|
  {
    if options == [] then NoOptions
    else if lines == [] then InputExhausted
    else
      var choice := MenuChoice(lines[0]);
      if choice.Some? then Chosen(choice.value, 1)
      else
        var later := HandleGameMenu(options, lines[1..]);
        if later.Chosen? then Chosen(later.request, later.linesRead + 1) else later
  }

  /** The menu acts on the first valid line: every line read before it was
      invalid, and the input runs out only when no line is valid. */
  lemma {:induction false} HandleGameMenuFirstValid(options: seq<string>, lines: seq<string>)
    ensures var r := HandleGameMenu(options, lines);
      r.Chosen? ==> forall k :: 0 <= k < r.linesRead - 1 ==> MenuChoice(lines[k]) == None
    ensures HandleGameMenu(options, lines) == InputExhausted <==>
      options != [] && forall k :: 0 <= k < |lines| ==> MenuChoice(lines[k]) == None
    decreases |lines|
  {
    if options != [] && lines != [] && MenuChoice(lines[0]) == None {
      HandleGameMenuFirstValid(options, lines[1..]);
      assert forall k :: 1 <= k < |lines| ==> lines[1..][k - 1] == lines[k];
    }
  }

  /** What an answer line means once it is stripped and lower-cased: "exit"
      leaves the room, "true" and "false" are answers, anything else is
      rejected. */
  function AnswerOf(answer: string): Option<Request>
  {
    if answer == "exit" then Some(ExitRoom)
    else if answer == "true" || answer == "false" then Some(Answer(answer))
    else None
  }

  /** One line typed as an answer. */
  function AnswerRequest(line: string): Option<Request>
  {
    AnswerOf(Lower(Strip(line)))
  }

  /** An answer line yields only one of three requests. */
  lemma AnswerRequestValues(line: string)
    ensures AnswerRequest(line).Some? ==> AnswerRequest(line).value in {ExitRoom, Answer("true"), Answer("false")}
  {
  }

  /** The answer prompt ignores case. */
  lemma AnswerRequestIgnoresCase(line: string)
    ensures AnswerRequest(Lower(line)) == AnswerRequest(line)
  {
    StripLower(line);
    LowerIdempotent(Strip(line));
  }

  /** The answer prompt ignores whitespace around the answer. */
  lemma AnswerRequestPadded(front: string, line: string, back: string)
    requires forall k :: 0 <= k < |front| ==> IsSpace(front[k])
    requires forall k :: 0 <= k < |back| ==> IsSpace(back[k])
    ensures AnswerRequest(front + line + back) == AnswerRequest(line)
  {
    StripPadded(front, line, back);
  }

  /** None of the first `n` lines names an answer request. */
  ghost predicate AllRejected(lines: seq<string>, n: nat)
    requires n <= |lines|
  {
    forall k :: 0 <= k < n ==> AnswerRequest(lines[k]) == None
  }

  /** `send_answer`: read lines until one is "true", "false" or "exit"
      (ignoring case and surrounding whitespace); the request sent is the
      one that line names. Each line is classified as it is read, which is
      the membership test of the `while` and the `if` after it together. */
  method SendAnswer(lines: seq<string>) returns (r: Prompted)
    ensures r != NoOptions
    ensures r.Chosen? ==> 0 < r.linesRead <= |lines| && AnswerRequest(lines[r.linesRead - 1]) == Some(r.request)
    ensures r.Chosen? ==> AllRejected(lines, r.linesRead - 1)
    ensures r == InputExhausted <==> AllRejected(lines, |lines|)
  {
    if lines == [] {
      return InputExhausted;
    }
    var read := 1;
    var request := AnswerRequest(lines[0]);
    while request == None
      invariant 1 <= read <= |lines|
      invariant request == AnswerRequest(lines[read - 1])
      invariant AllRejected(lines, read - 1)
      decreases |lines| - read
    {
      assert AllRejected(lines, read);
      if read == |lines| {
        return InputExhausted;
      }
      request := AnswerRequest(lines[read]);
      read := read + 1;
    }
    r := Chosen(request.value, read);
  }

  /** What the shutdown loop leaves in the send buffer when the socket's
      successive `send` calls turn out as `outcomes`: it stops once the
      buffer is empty, when the outcomes run out, or at the first send that
      raises. What it leaves is always the unsent end of the buffer. */
  function Flush(buffer: seq<byte>, outcomes: seq<SendOutcome>): (r: seq<byte>)
    ensures |r| <= |buffer| && buffer == buffer[..|buffer| - |r|] + r
    decreases |outcomes|
  {
    if buffer == [] || outcomes == [] then buffer
    else match outcomes[0]
      case Accepted(n) =>
        var after := AfterSend(buffer, n);
        var r := Flush(after, outcomes[1..]);
        SuffixOfSuffix(buffer, after, r);
        r
      case _ => buffer
  }

  /** The end of an end of `a` is an end of `a`. */
  lemma SuffixOfSuffix(a: seq<byte>, b: seq<byte>, c: seq<byte>)
    requires |b| <= |a| && a == a[..|a| - |b|] + b
    requires |c| <= |b| && b == b[..|b| - |c|] + c
    ensures a == a[..|a| - |c|] + c
  {
    var x, y := a[..|a| - |b|], b[..|b| - |c|];
    Assoc(x, y, c);
    assert a[..|a| - |c|] == x + y;
  }

  /** One turn of the shutdown loop, at position `i` of the outcomes. */
  lemma FlushAt(buffer: seq<byte>, outcomes: seq<SendOutcome>, i: nat)
    requires buffer != [] && i < |outcomes|
    ensures Flush(buffer, outcomes[i..]) ==
      if outcomes[i].Accepted? then Flush(AfterSend(buffer, outcomes[i].sent), outcomes[i + 1..]) else buffer
  {
    assert outcomes[i..][0] == outcomes[i] && outcomes[i..][1..] == outcomes[i + 1..];
  }

  /** A socket that keeps taking at least one byte per call empties the
      buffer within as many calls as there are bytes. */
  lemma {:induction false} FlushEmpties(buffer: seq<byte>, outcomes: seq<SendOutcome>)
    requires |outcomes| >= |buffer|
    requires forall i :: 0 <= i < |outcomes| ==> outcomes[i].Accepted? && outcomes[i].sent >= 1
    ensures Flush(buffer, outcomes) == []
    decreases |outcomes|
  {
    if buffer != [] {
      FlushEmpties(AfterSend(buffer, outcomes[0].sent), outcomes[1..]);
    }
  }

  /** The client side of the connection: `recv_buffer`, `send_buffer` and
      the `running` flag of `GameClient`. */
  class GameClient {
    var recvBuffer: seq<byte>
    var sendBuffer: seq<byte>
    var running: bool

    constructor ()
      ensures recvBuffer == [] && sendBuffer == [] && running
    {
      recvBuffer := [];
      sendBuffer := [];
      running := true;
    }

    /** `send_message`: the encoded request is queued behind the bytes
        already waiting. A payload too long for the 4-byte prefix makes
        `struct.pack` raise, and nothing is queued. */
    method SendMessage(payload: seq<byte>) returns (queued: bool)
      modifies this`sendBuffer
      ensures queued == Encodable(payload)
      ensures sendBuffer == if queued then old(sendBuffer) + Frame(payload) else old(sendBuffer)
    {
      queued := |payload| < LengthBound;
      if queued {
        sendBuffer := sendBuffer + Frame(payload);
      }
    }

    /** `receive_message` given the bytes one `recv` returned. No bytes
        means the server closed: the result is `None` and the client stops.
        Otherwise the bytes are appended and the frame loop runs; the
        messages decoded are returned, except that a payload that is not
        JSON makes the call return no message at all (the frames peeled
        before it stay consumed). */
    method ReceiveMessage<M>(data: seq<byte>, decode: seq<byte> -> Option<M>) returns (r: Option<seq<M>>)
      modifies this`recvBuffer, this`running
      ensures data == [] ==> r == None && !running && recvBuffer == old(recvBuffer)
      ensures data != [] ==> var d := Drain(old(recvBuffer) + data, decode);
        && recvBuffer == d.rest && running == old(running)
        && r == Some(if d.decodeFailed then [] else d.messages)
      ensures data != [] && r != Some([]) ==> !HasCompleteFrame(recvBuffer)
    {
      if data == [] {
        running := false;
        return None;
      }
      recvBuffer := recvBuffer + data;
      var messages, rest, decodeFailed := ReceiveFrames(recvBuffer, decode);
      recvBuffer := rest;
      if decodeFailed {
        r := Some([]);
      } else {
        r := Some(messages);
      }
    }

    /** The write side of `handle_server`: with bytes pending, one `send`
        either takes a prefix of them, is not ready, or fails and stops the
        client. */
    method HandleWrite(outcome: SendOutcome)
      modifies this`sendBuffer, this`running
      ensures old(sendBuffer) == [] ==> sendBuffer == [] && running == old(running)
      ensures old(sendBuffer) != [] ==> match outcome
        case Accepted(n) => sendBuffer == AfterSend(old(sendBuffer), n) && running == old(running)
        case WouldBlock => sendBuffer == old(sendBuffer) && running == old(running)
        case SendFailed => sendBuffer == old(sendBuffer) && !running
    {
      if sendBuffer != [] {
        match outcome
        case Accepted(n) =>
          sendBuffer := AfterSend(sendBuffer, n);
        case WouldBlock =>
        case SendFailed =>
          running := false;
      }
    }

    /** The interrupt path of `start`: a `disconnect` request is queued and
        the send buffer is flushed until it is empty or a send raises. */
    method Shutdown(disconnect: seq<byte>, outcomes: seq<SendOutcome>) returns (queued: bool)
      modifies this`sendBuffer
      ensures queued == Encodable(disconnect)
      ensures sendBuffer == Flush(if queued then old(sendBuffer) + Frame(disconnect) else old(sendBuffer), outcomes)
    {
      queued := SendMessage(disconnect);
      ghost var start := sendBuffer;
      var i := 0;
      while sendBuffer != [] && i < |outcomes|
        invariant i <= |outcomes|
        invariant Flush(sendBuffer, outcomes[i..]) == Flush(start, outcomes)
        decreases |outcomes| - i
      {
        FlushAt(sendBuffer, outcomes, i);
        match outcomes[i]
        case Accepted(n) =>
          sendBuffer := AfterSend(sendBuffer, n);
          i := i + 1;
        case _ =>
          break;
      }
      assert outcomes == outcomes[0..];
    }
  }
}
