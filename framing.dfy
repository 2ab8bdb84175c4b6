/** The length-prefixed wire format that the first server prototype and its
    client share: every message is the UTF-8 JSON text of an object, preceded
    by its byte length packed as a 4-byte big-endian unsigned integer
    (`struct.pack('>I', n)`). The JSON text itself is an opaque payload here. */
module Framing {
  import opened Wrappers

  newtype byte = x: int | 0 <= x < 0x100

  /** Size of the length prefix. */
  const PrefixSize: nat := 4
  /** `struct.pack('>I', n)` accepts exactly the n below this bound. */
  const LengthBound: nat := 0x1_0000_0000

  /** `struct.pack('>I', n)`. */
  function Be32(n: nat): (b: seq<byte>)
    requires n < LengthBound
    ensures |b| == PrefixSize
  {
    [(n / 0x100_0000) as byte, (n / 0x1_0000 % 0x100) as byte, (n / 0x100 % 0x100) as byte, (n % 0x100) as byte]
  }

  /** `struct.unpack('>I', b)[0]`. */
  function Be32Value(b: seq<byte>): (n: nat)
    requires |b| == PrefixSize
    ensures n < LengthBound
  {
    ((b[0] as nat * 0x100 + b[1] as nat) * 0x100 + b[2] as nat) * 0x100 + b[3] as nat
  }

  /** Unpacking a packed length gives the length back. */
  lemma Be32RoundTrip(n: nat)
    requires n < LengthBound
    ensures Be32Value(Be32(n)) == n
  {
    var b := Be32(n);
    assert n == (n / 0x100) * 0x100 + n % 0x100;
    assert n / 0x100 == (n / 0x1_0000) * 0x100 + n / 0x100 % 0x100;
    assert n / 0x1_0000 == (n / 0x100_0000) * 0x100 + n / 0x1_0000 % 0x100;
  }

  /** Every 4-byte prefix is the packing of the length it denotes, so the
      reader and the writer agree on all 2^32 prefixes. */
  lemma Be32Canonical(b: seq<byte>)
    requires |b| == PrefixSize
    ensures Be32(Be32Value(b)) == b
  {
    var n := Be32Value(b);
    var b0, b1, b2, b3 := b[0] as nat, b[1] as nat, b[2] as nat, b[3] as nat;
    assert n == b0 * 0x100_0000 + b1 * 0x1_0000 + b2 * 0x100 + b3;
    assert n / 0x100_0000 == b0;
    assert n / 0x1_0000 == b0 * 0x100 + b1;
    assert n / 0x100 == b0 * 0x1_0000 + b1 * 0x100 + b2;
  }

  /** A payload `struct.pack('>I', ...)` can frame. */
  predicate Encodable(payload: seq<byte>)
  {
    |payload| < LengthBound
  }

  predicate AllEncodable(payloads: seq<seq<byte>>)
  {
    forall k :: 0 <= k < |payloads| ==> Encodable(payloads[k])
  }

  /** The length a buffer's first four bytes announce. */
  function DeclaredLength(buf: seq<byte>): nat
    requires |buf| >= PrefixSize
  {
    Be32Value(buf[..PrefixSize])
  }

  /** The two tests of the receive loop both pass: the prefix is complete,
      and so is the payload it announces. */
  predicate HasCompleteFrame(buf: seq<byte>)
  {
    |buf| >= PrefixSize && |buf| >= PrefixSize + DeclaredLength(buf)
  }

  /** The bytes `send_message` appends for one payload. The reader sees one
      complete frame in them that announces exactly the payload's length. */
  function Frame(payload: seq<byte>): (f: seq<byte>)
    requires Encodable(payload)
    ensures |f| == PrefixSize + |payload|
    ensures HasCompleteFrame(f) && DeclaredLength(f) == |payload|
    ensures f[PrefixSize..] == payload
  {
    Be32RoundTrip(|payload|);
    var f := Be32(|payload|) + payload;
    assert f[..PrefixSize] == Be32(|payload|);
    f
  }

  /** The bytes a sequence of `send_message` calls appends, in order. */
  function EncodeAll(payloads: seq<seq<byte>>): seq<byte>
    requires AllEncodable(payloads)
  {
    if payloads == [] then [] else Frame(payloads[0]) + EncodeAll(payloads[1..])
  }

  /** Sending one more message extends the encoding of the earlier ones. */
  lemma {:induction false} EncodeAllSnoc(payloads: seq<seq<byte>>, p: seq<byte>)
    requires AllEncodable(payloads) && Encodable(p)
    ensures AllEncodable(payloads + [p])
    ensures EncodeAll(payloads + [p]) == EncodeAll(payloads) + Frame(p)
  {
    if payloads != [] {
      assert (payloads + [p])[1..] == payloads[1..] + [p];
      EncodeAllSnoc(payloads[1..], p);
    }
  }

  /** The encoding of two runs of messages is the two encodings, one after
      the other. */
  lemma {:induction false} EncodeAllAppend(ps: seq<seq<byte>>, qs: seq<seq<byte>>)
    requires AllEncodable(ps) && AllEncodable(qs)
    ensures AllEncodable(ps + qs)
    ensures EncodeAll(ps + qs) == EncodeAll(ps) + EncodeAll(qs)
  {
    if ps != [] {
      assert (ps + qs)[1..] == ps[1..] + qs;
      EncodeAllAppend(ps[1..], qs);
    } else {
      assert ps + qs == qs;
    }
  }

  /** The frames a receive buffer is split into, and what stays behind. */
  datatype Peeled = Peeled(payloads: seq<seq<byte>>, rest: seq<byte>)

  /** One step of `Peel` on a buffer that starts with a complete frame. */
  lemma PeelStep(buf: seq<byte>)
    requires HasCompleteFrame(buf)
    ensures var n := DeclaredLength(buf); var tail := Peel(buf[PrefixSize + n..]);
      Peel(buf) == Peeled([buf[PrefixSize..PrefixSize + n]] + tail.payloads, tail.rest)
  {
  }

  /** The frame-peeling loop of `receive_message` as a function: peel
      complete frames off the front until the buffer holds an incomplete
      prefix or an incomplete payload. What stays behind is the end of the
      buffer and holds no complete frame. */
  function Peel(buf: seq<byte>): (r: Peeled)
    ensures |r.rest| <= |buf|
    ensures !HasCompleteFrame(r.rest)
    decreases |buf|
  {
    if !HasCompleteFrame(buf) then Peeled([], buf)
    else
      var n := DeclaredLength(buf);
      var tail := Peel(buf[PrefixSize + n..]);
      Peeled([buf[PrefixSize..PrefixSize + n]] + tail.payloads, tail.rest)
  }

  /** Partial data is never discarded: the peeled frames, encoded again,
      followed by what stays in the buffer, are the buffer. */
  lemma {:induction false} PeelReassembles(buf: seq<byte>)
    ensures AllEncodable(Peel(buf).payloads)
    ensures EncodeAll(Peel(buf).payloads) + Peel(buf).rest == buf
    decreases |buf|
  {
    if HasCompleteFrame(buf) {
      var n := DeclaredLength(buf);
      var payload := buf[PrefixSize..PrefixSize + n];
      var after := buf[PrefixSize + n..];
      var tail := Peel(after);
      PeelStep(buf);
      PeelReassembles(after);
      FrameAtFront(buf);
      EncodeAllCons(payload, tail.payloads);
      Assoc(Frame(payload), EncodeAll(tail.payloads), tail.rest);
      SplitAt(buf, PrefixSize + n);
    }
  }

  /** A buffer that starts with a complete frame starts with the encoding of
      that frame's payload. */
  lemma FrameAtFront(buf: seq<byte>)
    requires HasCompleteFrame(buf)
    ensures var n := DeclaredLength(buf);
      Encodable(buf[PrefixSize..PrefixSize + n]) && Frame(buf[PrefixSize..PrefixSize + n]) == buf[..PrefixSize + n]
  {
    Be32Canonical(buf[..PrefixSize]);
    var n := DeclaredLength(buf);
    assert buf[..PrefixSize + n] == buf[..PrefixSize] + buf[PrefixSize..PrefixSize + n];
  }

  lemma EncodeAllCons(p: seq<byte>, payloads: seq<seq<byte>>)
    requires Encodable(p) && AllEncodable(payloads)
    ensures AllEncodable([p] + payloads)
    ensures EncodeAll([p] + payloads) == Frame(p) + EncodeAll(payloads)
  {
    assert ([p] + payloads)[1..] == payloads;
  }

  /** Framing round trip: a buffer made of encoded frames followed by an
      incomplete tail is peeled into exactly those payloads, in order, with
      the tail left in the buffer. */
  lemma {:induction false} PeelEncodeAll(payloads: seq<seq<byte>>, tail: seq<byte>)
    requires AllEncodable(payloads) && !HasCompleteFrame(tail)
    ensures Peel(EncodeAll(payloads) + tail) == Peeled(payloads, tail)
  {
    if payloads != [] {
      var p, others := payloads[0], payloads[1..];
      var after := EncodeAll(others) + tail;
      Assoc(Frame(p), EncodeAll(others), tail);
      FrameThen(p, after);
      PeelStep(Frame(p) + after);
      PeelEncodeAll(others, tail);
      assert [p] + others == payloads;
    }
  }

  /** Receiving in two chunks gives the same frames as receiving everything at
      once: what the first chunk leaves behind is completed by the second. */
  lemma PeelAppend(buf: seq<byte>, more: seq<byte>)
    ensures Peel(buf + more).payloads == Peel(buf).payloads + Peel(Peel(buf).rest + more).payloads
    ensures Peel(buf + more).rest == Peel(Peel(buf).rest + more).rest
  {
    var first := Peel(buf);
    var second := Peel(first.rest + more);
    PeelReassembles(buf);
    PeelReassembles(first.rest + more);
    EncodeAllAppend(first.payloads, second.payloads);
    var e1, e2 := EncodeAll(first.payloads), EncodeAll(second.payloads);
    Assoc(e1, first.rest, more);
    Assoc(e1, e2, second.rest);
    PeelEncodeAll(first.payloads + second.payloads, second.rest);
  }

  lemma Assoc<T>(a: seq<T>, b: seq<T>, c: seq<T>)
    ensures (a + b) + c == a + (b + c)
  {
  }

  lemma SplitAt<T>(s: seq<T>, k: nat)
    requires k <= |s|
    ensures s[..k] + s[k..] == s
  {
  }

  /** A frame followed by other bytes: the reader finds that frame first. */
  lemma FrameThen(p: seq<byte>, after: seq<byte>)
    requires Encodable(p)
    ensures HasCompleteFrame(Frame(p) + after) && DeclaredLength(Frame(p) + after) == |p|
    ensures (Frame(p) + after)[PrefixSize..PrefixSize + |p|] == p
    ensures (Frame(p) + after)[PrefixSize + |p|..] == after
  {
    var f := Frame(p);
    assert (f + after)[..PrefixSize] == f[..PrefixSize];
    assert (f + after)[PrefixSize..PrefixSize + |p|] == f[PrefixSize..];
  }

  /** A frame that arrives split at any byte offset: the first part is kept
      whole in the buffer and yields nothing, and the second part completes
      exactly the one payload. */
  lemma SplitDelivery(payload: seq<byte>, k: nat)
    requires Encodable(payload) && k < |Frame(payload)|
    ensures Peel(Frame(payload)[..k]) == Peeled([], Frame(payload)[..k])
    ensures Peel(Frame(payload)[..k] + Frame(payload)[k..]) == Peeled([payload], [])
  {
    var f := Frame(payload);
    if k >= PrefixSize {
      assert f[..k][..PrefixSize] == f[..PrefixSize];
    }
    SplitAt(f, k);
    assert EncodeAll([payload]) == f + EncodeAll([]);
    assert f + [] == f;
    PeelEncodeAll([payload], []);
  }

  /** What the receive loop produces when each payload is also JSON-decoded:
      the decoded messages, the bytes left in the buffer, and whether the loop
      stopped on a payload that failed to decode. */
  datatype Drained<M> = Drained(messages: seq<M>, rest: seq<byte>, decodeFailed: bool)

  /** The receive loop with decoding: a frame is removed from the buffer
      before its payload is decoded, and a failed decode ends the loop (the
      exception leaves the `while True`). Only a loop that ran out of complete
      frames leaves a buffer without one. */
  function Drain<M>(buf: seq<byte>, decode: seq<byte> -> Option<M>): (d: Drained<M>)
    ensures !d.decodeFailed ==> !HasCompleteFrame(d.rest)
    decreases |buf|
  {
    if !HasCompleteFrame(buf) then Drained([], buf, false)
    else
      var n := DeclaredLength(buf);
      var after := buf[PrefixSize + n..];
      match decode(buf[PrefixSize..PrefixSize + n])
      case None => Drained([], after, true)
      case Some(m) =>
        var d := Drain(after, decode);
        Drained([m] + d.messages, d.rest, d.decodeFailed)
  }

  /** One step of `Drain` on a buffer that starts with a complete frame. */
  lemma DrainStep<M>(buf: seq<byte>, decode: seq<byte> -> Option<M>)
    requires HasCompleteFrame(buf)
    ensures var n := DeclaredLength(buf); var after := buf[PrefixSize + n..]; var d := Drain(after, decode);
      Drain(buf, decode) == match decode(buf[PrefixSize..PrefixSize + n])
        case None => Drained([], after, true)
        case Some(m) => Drained([m] + d.messages, d.rest, d.decodeFailed)
  {
  }

  /** How a drain relates to the frames `Peel` finds: the messages are the
      decodings of the first frames, in order. If every frame decodes, the
      buffer is left exactly as `Peel` leaves it; otherwise the frame that
      failed was consumed, and the frames behind it are still in the buffer,
      intact and parseable. */
  ghost predicate DrainMatchesPeel<M>(d: Drained<M>, p: Peeled, decode: seq<byte> -> Option<M>)
  {
    var k := |d.messages|;
    && k <= |p.payloads|
    && (forall i :: 0 <= i < k ==> decode(p.payloads[i]) == Some(d.messages[i]))
    && (d.decodeFailed <==> k < |p.payloads|)
    && (d.decodeFailed ==> decode(p.payloads[k]) == None && Peel(d.rest) == Peeled(p.payloads[k + 1..], p.rest))
    && (!d.decodeFailed ==> d.rest == p.rest)
  }

  /** A payload that decodes, in front of a drain that matches. */
  lemma DrainMatchesCons<M>(m: M, payload: seq<byte>, d: Drained<M>, p: Peeled, decode: seq<byte> -> Option<M>)
    requires decode(payload) == Some(m) && DrainMatchesPeel(d, p, decode)
    ensures DrainMatchesPeel(Drained([m] + d.messages, d.rest, d.decodeFailed), Peeled([payload] + p.payloads, p.rest), decode)
  {
    var ps := [payload] + p.payloads;
    var k := |d.messages|;
    if d.decodeFailed {
      assert ps[k + 1] == p.payloads[k];
      assert ps[k + 2..] == p.payloads[k + 1..];
    }
  }

  /** A payload that does not decode, in front of the frames behind it. */
  lemma DrainMatchesFail<M>(payload: seq<byte>, after: seq<byte>, decode: seq<byte> -> Option<M>)
    requires decode(payload) == None
    ensures DrainMatchesPeel(Drained([], after, true), Peeled([payload] + Peel(after).payloads, Peel(after).rest), decode)
  {
    assert ([payload] + Peel(after).payloads)[1..] == Peel(after).payloads;
  }

  lemma {:induction false} DrainAgainstPeel<M>(buf: seq<byte>, decode: seq<byte> -> Option<M>)
    ensures DrainMatchesPeel(Drain(buf, decode), Peel(buf), decode)
    decreases |buf|
  {
    if HasCompleteFrame(buf) {
      var n := DeclaredLength(buf);
      var payload := buf[PrefixSize..PrefixSize + n];
      var after := buf[PrefixSize + n..];
      PeelStep(buf);
      DrainStep(buf, decode);
      match decode(payload)
      case None =>
        DrainMatchesFail(payload, after, decode);
      case Some(m) =>
        DrainAgainstPeel(after, decode);
        DrainMatchesCons(m, payload, Drain(after, decode), Peel(after), decode);
    }
  }

  /** The loop's bookkeeping: `messages` decoded so far, followed by what
      draining `rest` gives, is what draining the whole buffer gives. */
  ghost predicate DrainsTo<M>(total: Drained<M>, messages: seq<M>, rest: seq<byte>, decode: seq<byte> -> Option<M>)
  {
    var d := Drain(rest, decode);
    total == Drained(messages + d.messages, d.rest, d.decodeFailed)
  }

  lemma DrainsToStart<M>(buf: seq<byte>, decode: seq<byte> -> Option<M>)
    ensures DrainsTo(Drain(buf, decode), [], buf, decode)
  {
    assert [] + Drain(buf, decode).messages == Drain(buf, decode).messages;
  }

  /** A loop that stops without a complete frame has drained everything. */
  lemma DrainsToStop<M>(total: Drained<M>, messages: seq<M>, rest: seq<byte>, decode: seq<byte> -> Option<M>)
    requires DrainsTo(total, messages, rest, decode) && !HasCompleteFrame(rest)
    ensures total == Drained(messages, rest, false)
  {
    assert messages + [] == messages;
  }

  /** A frame that decodes moves its message over to `messages`; one that
      does not ends the drain with the frame consumed. */
  lemma {:induction false} DrainsToStep<M>(total: Drained<M>, messages: seq<M>, rest: seq<byte>, decode: seq<byte> -> Option<M>)
    requires DrainsTo(total, messages, rest, decode) && HasCompleteFrame(rest)
    ensures var n := DeclaredLength(rest); var after := rest[PrefixSize + n..];
      match decode(rest[PrefixSize..PrefixSize + n])
      case None => total == Drained(messages, after, true)
      case Some(m) => DrainsTo(total, messages + [m], after, decode)
  {
    var n := DeclaredLength(rest);
    var after := rest[PrefixSize + n..];
    DrainStep(rest, decode);
    match decode(rest[PrefixSize..PrefixSize + n])
    case None =>
      assert messages + [] == messages;
    case Some(m) =>
      Assoc(messages, [m], Drain(after, decode).messages);
  }

  /** The `while True` frame loop of `receive_message`, run over the buffer
      after the newly received bytes were appended. */
  method ReceiveFrames<M>(buf: seq<byte>, decode: seq<byte> -> Option<M>)
    returns (messages: seq<M>, rest: seq<byte>, decodeFailed: bool)
    ensures Drained(messages, rest, decodeFailed) == Drain(buf, decode)
    ensures !decodeFailed ==> !HasCompleteFrame(rest)
  {
    rest := buf;
    messages := [];
    decodeFailed := false;
    ghost var total := Drain(buf, decode);
    DrainsToStart(buf, decode);
    while true
      invariant !decodeFailed && DrainsTo(total, messages, rest, decode)
      decreases |rest|
    {
      if |rest| < PrefixSize || |rest| < PrefixSize + Be32Value(rest[..PrefixSize]) {
        DrainsToStop(total, messages, rest, decode);
        break;
      }
      DrainsToStep(total, messages, rest, decode);
      var length := Be32Value(rest[..PrefixSize]);
      var payload := rest[PrefixSize..PrefixSize + length];
      rest := rest[PrefixSize + length..];
      match decode(payload)
      case None =>
        decodeFailed := true;
        return;
      case Some(m) =>
        messages := messages + [m];
    }
  }

  /** `buffer[sent:]`: what a send of `sent` bytes leaves. Python's slice
      gives the empty string when `sent` is past the end. The bytes that went
      out are the front of the buffer, in order. */
  function AfterSend(buffer: seq<byte>, sent: nat): (r: seq<byte>)
    ensures |r| == if sent < |buffer| then |buffer| - sent else 0
    ensures buffer == buffer[..|buffer| - |r|] + r
  {
    if sent < |buffer| then buffer[sent..] else []
  }

  /** How one `sock.send(buffer)` call turns out: it takes the first `sent`
      bytes, or raises `BlockingIOError` (the socket is not ready), or raises
      any other error. */
  datatype SendOutcome = Accepted(sent: nat) | WouldBlock | SendFailed

  /** Frames made by the sender, each holding a payload that decodes, come
      out of the receive loop as exactly those messages, in order, and the
      loop stops with the trailing partial frame still buffered. */
  lemma DrainEncodeAll<M>(payloads: seq<seq<byte>>, tail: seq<byte>, decode: seq<byte> -> Option<M>)
    requires AllEncodable(payloads) && !HasCompleteFrame(tail)
    requires forall i :: 0 <= i < |payloads| ==> decode(payloads[i]).Some?
    ensures var d := Drain(EncodeAll(payloads) + tail, decode);
      && !d.decodeFailed && d.rest == tail && |d.messages| == |payloads|
      && forall i :: 0 <= i < |payloads| ==> decode(payloads[i]) == Some(d.messages[i])
  {
    PeelEncodeAll(payloads, tail);
    DrainAgainstPeel(EncodeAll(payloads) + tail, decode);
  }
}
