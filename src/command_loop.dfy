/**
 * The connection handling the three device-facing servers share (server/src/handlers/device.rs,
 * server/src/device_handler.rs, server/src/bin/dummy.rs): accept a connection, then read commands of
 * a fixed byte size with `read_exact`, decode each, and answer it, until a read or a decode fails;
 * then accept the next connection. A panic while answering ends the whole server loop.
 *
 * A connection is the byte stream the client sends; what the server writes back is recorded per
 * command. The reply step may carry per-connection state (the dummy server's stage counter), which
 * starts from `init` for every accepted connection.
 */
module CommandLoop {
  import opened Wrappers
  import opened Bytes

  datatype ClientEnd = ReadFailed | DecodeFailed | Panicked(reason: string)

  /** What one connection saw: the replies written, in order, and why the client loop stopped. */
  datatype Session<W> = Session(written: seq<W>, end: ClientEnd)

  datatype Connection = AcceptFailed | Accepted(stream: seq<byte>)

  /** A decoder whose error is dropped with `.ok()`, as `parse_client_command` does. */
  function DropError<C>(decode: seq<byte> -> Result<C, string>): (d: seq<byte> -> Option<C>)
    ensures forall buf :: d(buf).Some? <==> decode(buf).Ok?
    ensures forall buf :: d(buf).Some? ==> d(buf).value == decode(buf).value
  {
    (buf: seq<byte>) =>
      match decode(buf)
      case Ok(c) => Some(c)
      case Err(_) => None
  }

  /** The bytes of the `k`-th command of a stream. */
  function Chunk(stream: seq<byte>, size: nat, k: nat): seq<byte>
    requires (k + 1) * size <= |stream|
  {
    stream[k * size..(k + 1) * size]
  }

  /** The `'client` loop: one command per `size` bytes, until the stream runs short, a decode fails or a reply panics. */
  function ClientSession<S, C, W>(state: S, stream: seq<byte>, size: nat,
                                  decode: seq<byte> -> Option<C>, step: (S, C) -> Outcome<(S, W)>): Session<W>
    requires size > 0
    decreases |stream|
  {
    if |stream| < size then Session([], ReadFailed)
    else
      match decode(stream[..size])
      case None => Session([], DecodeFailed)
      case Some(c) =>
        match step(state, c)
        case Panics(why) => Session([], Panicked(why))
        case Returns((next, w)) =>
          var rest := ClientSession(next, stream[size..], size, decode, step);
          Session([w] + rest.written, rest.end)
  }

  /** The reply state in force when the `k`-th command of the stream is answered. */
  function StateBefore<S, C, W>(state: S, stream: seq<byte>, size: nat,
                                decode: seq<byte> -> Option<C>, step: (S, C) -> Outcome<(S, W)>, k: nat): S
    requires size > 0
    decreases k
  {
    if k == 0 || |stream| < size then state
    else
      match decode(stream[..size])
      case None => state
      case Some(c) =>
        match step(state, c)
        case Panics(_) => state
        case Returns((next, _)) => StateBefore(next, stream[size..], size, decode, step, k - 1)
  }

  lemma ChunkShift(stream: seq<byte>, size: nat, k: nat)
    requires size <= |stream| && (k + 2) * size <= |stream|
    ensures Chunk(stream[size..], size, k) == Chunk(stream, size, k + 1)
  {
  }

  /**
   * The `k`-th command of the stream is read whole, decodes, and is answered with `w`, moving the reply
   * state from the one in force before it to the one in force after it.
   */
  ghost predicate Answered<S, C, W>(state: S, stream: seq<byte>, size: nat, decode: seq<byte> -> Option<C>,
                                    step: (S, C) -> Outcome<(S, W)>, k: nat, w: W)
    requires size > 0
  {
    (k + 1) * size <= |stream| && decode(Chunk(stream, size, k)).Some?
    && step(StateBefore(state, stream, size, decode, step, k), decode(Chunk(stream, size, k)).value)
       == Returns((StateBefore(state, stream, size, decode, step, k + 1), w))
  }

  /** Answering the first command and then the `k`-th of the remaining stream is answering the `(k+1)`-th. */
  lemma AnsweredShift<S, C, W>(state: S, stream: seq<byte>, size: nat, decode: seq<byte> -> Option<C>,
                               step: (S, C) -> Outcome<(S, W)>, next: S, k: nat, w: W)
    requires size > 0 && size <= |stream|
    requires decode(stream[..size]).Some? && step(state, decode(stream[..size]).value).Returns?
    requires next == step(state, decode(stream[..size]).value).value.0
    requires Answered(next, stream[size..], size, decode, step, k, w)
    ensures Answered(state, stream, size, decode, step, k + 1, w)
  {
    ChunkShift(stream, size, k);
    assert StateBefore(state, stream, size, decode, step, k + 1) == StateBefore(next, stream[size..], size, decode, step, k);
    assert StateBefore(state, stream, size, decode, step, k + 2) == StateBefore(next, stream[size..], size, decode, step, k + 1);
  }

  /**
   * Each command is read as exactly `size` bytes, consecutively from the start of the stream: the
   * `k`-th reply answers the command decoded from bytes `k * size .. (k + 1) * size`, in the state the
   * earlier replies left.
   */
  lemma {:induction false} SessionReadsWholeCommands<S, C, W>(state: S, stream: seq<byte>, size: nat,
                                                         decode: seq<byte> -> Option<C>, step: (S, C) -> Outcome<(S, W)>)
    requires size > 0
    ensures forall k :: 0 <= k < |ClientSession(state, stream, size, decode, step).written| ==>
              Answered(state, stream, size, decode, step, k, ClientSession(state, stream, size, decode, step).written[k])
    decreases |stream|
  {
    var s := ClientSession(state, stream, size, decode, step);
    if |stream| >= size {
      assert Chunk(stream, size, 0) == stream[..size];
      match decode(stream[..size])
      case None =>
      case Some(c) =>
        match step(state, c)
        case Panics(_) =>
        case Returns((next, w)) =>
          SessionReadsWholeCommands(next, stream[size..], size, decode, step);
          var r := ClientSession(next, stream[size..], size, decode, step);
          assert s.written == [w] + r.written;
          forall k | 0 <= k < |s.written|
            ensures Answered(state, stream, size, decode, step, k, s.written[k])
          {
            if k > 0 {
              assert s.written[k] == r.written[k - 1];
              assert Answered(next, stream[size..], size, decode, step, k - 1, r.written[k - 1]);
              AnsweredShift(state, stream, size, decode, step, next, k - 1, s.written[k]);
            }
          }
    }
  }

  /**
   * Why the `'client` loop stopped: on a short read only when fewer than `size` bytes are left after
   * the commands answered; otherwise on the command right after them, which failed to decode or whose
   * reply panicked.
   */
  lemma {:induction false} SessionEndsOnNextCommand<S, C, W>(state: S, stream: seq<byte>, size: nat,
                                                        decode: seq<byte> -> Option<C>, step: (S, C) -> Outcome<(S, W)>)
    requires size > 0
    ensures var s := ClientSession(state, stream, size, decode, step);
            s.end.ReadFailed? <==> |stream| < (|s.written| + 1) * size
    ensures var s := ClientSession(state, stream, size, decode, step);
            s.end.DecodeFailed? ==> decode(Chunk(stream, size, |s.written|)).None?
    ensures var s := ClientSession(state, stream, size, decode, step);
            s.end.Panicked? ==>
              decode(Chunk(stream, size, |s.written|)).Some?
              && step(StateBefore(state, stream, size, decode, step, |s.written|),
                      decode(Chunk(stream, size, |s.written|)).value).Panics?
    decreases |stream|
  {
    if |stream| >= size {
      assert Chunk(stream, size, 0) == stream[..size];
      match decode(stream[..size])
      case None =>
      case Some(c) =>
        match step(state, c)
        case Panics(_) =>
        case Returns((next, w)) =>
          SessionEndsOnNextCommand(next, stream[size..], size, decode, step);
          var r := ClientSession(next, stream[size..], size, decode, step);
          if !r.end.ReadFailed? {
            ChunkShift(stream, size, |r.written|);
            assert StateBefore(state, stream, size, decode, step, |r.written| + 1)
                == StateBefore(next, stream[size..], size, decode, step, |r.written|);
          }
    }
  }

  /** The accept loop: every accepted connection is served from `init`; a panic stops everything. */
  function Serve<S, C, W>(init: S, conns: seq<Connection>, size: nat,
                          decode: seq<byte> -> Option<C>, step: (S, C) -> Outcome<(S, W)>): seq<Session<W>>
    requires size > 0
    decreases |conns|
  {
    if |conns| == 0 then []
    else
      match conns[0]
      case AcceptFailed => Serve(init, conns[1..], size, decode, step)
      case Accepted(stream) =>
        var s := ClientSession(init, stream, size, decode, step);
        if s.end.Panicked? then [s] else [s] + Serve(init, conns[1..], size, decode, step)
  }

  function AcceptedCount(conns: seq<Connection>): nat
  {
    if |conns| == 0 then 0 else (if conns[0].Accepted? then 1 else 0) + AcceptedCount(conns[1..])
  }

  /**
   * A failed read or decode ends only that client: unless some reply panics, every accepted
   * connection gets its own session, each starting afresh from `init`.
   */
  lemma {:induction false} FailuresEndOnlyTheClient<S, C, W>(init: S, conns: seq<Connection>, size: nat,
                                                         decode: seq<byte> -> Option<C>, step: (S, C) -> Outcome<(S, W)>)
    requires size > 0
    ensures var ss := Serve(init, conns, size, decode, step);
            (forall k :: 0 <= k < |ss| ==> !ss[k].end.Panicked?) ==> |ss| == AcceptedCount(conns)
    ensures var ss := Serve(init, conns, size, decode, step);
            forall k :: 0 <= k < |ss| - 1 ==> !ss[k].end.Panicked?
    decreases |conns|
  {
    if |conns| > 0 {
      FailuresEndOnlyTheClient(init, conns[1..], size, decode, step);
      var ss := Serve(init, conns, size, decode, step);
      if conns[0].Accepted? {
        var s := ClientSession(init, conns[0].stream, size, decode, step);
        assert ss[0] == s;
        if !s.end.Panicked? {
          assert ss[1..] == Serve(init, conns[1..], size, decode, step);
          assert forall k :: 0 <= k < |ss| - 1 ==> ss[1..][k] == ss[k + 1];
        }
      }
    }
  }

  /** The `'client` loop as the handlers write it. */
  method ServeClient<S, C, W>(init: S, stream: seq<byte>, size: nat,
                              decode: seq<byte> -> Option<C>, step: (S, C) -> Outcome<(S, W)>)
      returns (s: Session<W>)
    requires size > 0
    ensures s == ClientSession(init, stream, size, decode, step)
  {
    var state := init;
    var pos := 0;
    var written: seq<W> := [];
    while true
      invariant pos <= |stream|
      invariant var rest := ClientSession(state, stream[pos..], size, decode, step);
                ClientSession(init, stream, size, decode, step) == Session(written + rest.written, rest.end)
      decreases |stream| - pos
    {
      if |stream| - pos < size {
        return Session(written, ReadFailed);
      }
      var command := decode(stream[pos..pos + size]);
      assert stream[pos..][..size] == stream[pos..pos + size];
      if command.None? {
        return Session(written, DecodeFailed);
      }
      var outcome := step(state, command.value);
      if outcome.Panics? {
        return Session(written, Panicked(outcome.reason));
      }
      assert stream[pos..][size..] == stream[pos + size..];
      written := written + [outcome.value.1];
      state := outcome.value.0;
      pos := pos + size;
    }
  }

  /** The accept loop as the handlers write it, around `ServeClient`. */
  method AcceptLoop<S, C, W>(init: S, conns: seq<Connection>, size: nat,
                             decode: seq<byte> -> Option<C>, step: (S, C) -> Outcome<(S, W)>)
      returns (sessions: seq<Session<W>>)
    requires size > 0
    ensures sessions == Serve(init, conns, size, decode, step)
  {
    sessions := [];
    var i := 0;
    while i < |conns|
      invariant i <= |conns|
      invariant sessions + Serve(init, conns[i..], size, decode, step) == Serve(init, conns, size, decode, step)
      decreases |conns| - i
    {
      assert conns[i..][1..] == conns[i + 1..];
      match conns[i] {
        case AcceptFailed =>
        case Accepted(stream) =>
          var s := ServeClient(init, stream, size, decode, step);
          if s.end.Panicked? {
            return sessions + [s];
          }
          sessions := sessions + [s];
      }
      i := i + 1;
    }
  }
}
