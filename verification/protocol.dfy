/** The wire half of the chat protocol: the request and reply enums, the codec
    both share, and the `send`/`recv` operations on a stream (src/lib.rs).

    The MessagePack codec is not modelled byte by byte: a `Codec` is any pair of
    encode/decode functions, and what the protocol relies on about it is stated
    as the predicates `RoundTrips` and `IgnoresPadding`, which the lemmas take
    as hypotheses. */
module Protocol {

  newtype byte = x: int | 0 <= x < 0x100

  /** Length of the zero-filled array every `recv` reads into. */
  const BufferSize: nat := 1024

  datatype Option<T> = None | Some(value: T)

  /** Why an exchange ended early. */
  datatype Error =
    | TransportError     // a stream read, write or finish failed
    | MalformedMessage   // decode rejected the receive buffer
    | EncodeFailed       // encode rejected an outgoing message
    | ProtocolViolation  // the peer's message was of the wrong kind

  datatype Result<T> = Ok(value: T) | Err(error: Error)

  datatype Outcome = Pass | Fail(error: Error)

  /** A request; only `Post` carries a payload. */
  datatype ClientToServer = GetAll | GetLen | Post(content: string) | Clear

  /** A reply; `Hello` is the handshake marker the server sends first. */
  datatype ServerToClient = Hello | Messages(messages: seq<string>) | MessagesLen(len: nat) | OK

  /** An encoder and a decoder for one message type; either may fail. */
  datatype Codec<!M> = Codec(encode: M -> Option<seq<byte>>, decode: seq<byte> -> Option<M>)

  /** The codec used in each direction of a connection. */
  datatype Wire = Wire(req: Codec<ClientToServer>, rep: Codec<ServerToClient>)

  /** Decoding an encoding gives back the message. */
  ghost predicate RoundTrips<M(!new)>(c: Codec<M>)
  {
    forall m :: c.encode(m).Some? ==> c.decode(c.encode(m).value) == Some(m)
  }

  /** Decoding an encoding that fits the buffer is not disturbed by the zeros
      that follow it in the buffer. */
  ghost predicate IgnoresPadding<M(!new)>(c: Codec<M>)
  {
    forall m :: c.encode(m).Some? && |c.encode(m).value| <= BufferSize ==>
      c.decode(Frame(c.encode(m).value)) == c.decode(c.encode(m).value)
  }

  ghost predicate Sound<M(!new)>(c: Codec<M>)
  {
    RoundTrips(c) && IgnoresPadding(c)
  }

  /** `m` encodes, and its encoding is no longer than the receive buffer. */
  predicate Fits<M>(c: Codec<M>, m: M)
  {
    c.encode(m).Some? && |c.encode(m).value| <= BufferSize
  }

  function Min(a: nat, b: nat): nat
  {
    if a < b then a else b
  }

  function Zeros(n: nat): (z: seq<byte>)
    ensures |z| == n
    ensures forall i :: 0 <= i < n ==> z[i] == 0
  {
    seq(n, _ => 0)
  }

  /** The receive buffer as `decode` gets it after one read of `pending`:
      all 1024 bytes, the read ones first and zeros after them. */
  function Frame(pending: seq<byte>): (buf: seq<byte>)
    ensures |buf| == BufferSize
    ensures forall i :: 0 <= i < BufferSize ==> buf[i] == if i < |pending| then pending[i] else 0
  {
    var n := Min(|pending|, BufferSize);
    pending[..n] + Zeros(BufferSize - n)
  }

  /** One `read` on a receive stream: it fails, or it is offered the bytes
      the peer has sent and not yet been read (none at the end of the stream). */
  datatype StreamRead = ReadFailed | Read(pending: seq<byte>)

  function Decoded<M>(c: Codec<M>, buf: seq<byte>): Result<M>
  {
    match c.decode(buf)
    case Some(m) => Ok(m)
    case None => Err(MalformedMessage)
  }

  /** What `recv` returns after the read `r`. */
  function Received<M>(c: Codec<M>, r: StreamRead): (res: Result<M>)
    ensures r.ReadFailed? ==> res == Err(TransportError)
    ensures r.Read? ==> (res.Ok? <==> c.decode(Frame(r.pending)).Some?)
    ensures r.Read? && c.decode(Frame(r.pending)).None? ==> res == Err(MalformedMessage)
    ensures res.Ok? ==> r.Read? && c.decode(Frame(r.pending)) == Some(res.value)
    ensures res.Err? ==> res.error == TransportError || res.error == MalformedMessage
  {
    match r
    case ReadFailed => Err(TransportError)
    case Read(pending) => Decoded(c, Frame(pending))
  }

  /** `recv`: one read into a fresh zero-filled buffer, then decode of the
      whole buffer. `unread` is what the read leaves on the stream for a
      later read: everything past the first 1024 bytes. */
  method Recv<M>(c: Codec<M>, r: StreamRead) returns (res: Result<M>, unread: seq<byte>)
    ensures r.ReadFailed? ==> unread == []
    ensures r.Read? ==> |r.pending| - |unread| == Min(|r.pending|, BufferSize)
    ensures r.Read? ==> r.pending == r.pending[..|r.pending| - |unread|] + unread
    ensures res == Received(c, r)
  {
    if r.ReadFailed? {
      return Err(TransportError), [];
    }
    var buf := new byte[BufferSize](_ => 0);
    var n := Min(|r.pending|, BufferSize);
    var i := 0;
    while i < n
      invariant 0 <= i <= n
      invariant forall k :: 0 <= k < i ==> buf[k] == r.pending[k]
      invariant forall k :: i <= k < BufferSize ==> buf[k] == 0
    {
      buf[i] := r.pending[i];
      i := i + 1;
    }
    assert buf[..] == Frame(r.pending);
    unread := r.pending[n..];
    assert r.pending == r.pending[..n] + unread;
    res := Decoded(c, buf[..]);
  }

  /** A fitting encoding reaches `decode` whole, followed only by zeros. */
  lemma FrameKeepsFittingData(pending: seq<byte>)
    requires |pending| <= BufferSize
    ensures Frame(pending) == pending + Zeros(BufferSize - |pending|)
  {
  }

  /** A longer encoding reaches `decode` cut to its first 1024 bytes. */
  lemma FrameTruncates(pending: seq<byte>)
    requires |pending| > BufferSize
    ensures Frame(pending) == pending[..BufferSize]
    ensures Frame(pending) != pending
  {
    assert |Frame(pending)| != |pending|;
  }

  /** With a sound codec, a message whose encoding fits the buffer and is
      read in one piece arrives intact. */
  lemma RecvDeliversFitting<M(!new)>(c: Codec<M>, m: M)
    requires Sound(c)
    requires Fits(c, m)
    ensures Received(c, Read(c.encode(m).value)) == Ok(m)
  {
    var b := c.encode(m).value;
    assert c.decode(Frame(b)) == c.decode(b) == Some(m);
  }

  /** Truncation loses information: two different messages whose encodings
      are longer than the buffer and agree on its first 1024 bytes receive
      identically, so at least one of them is not delivered, whatever the codec. */
  lemma TruncationConflates<M>(c: Codec<M>, m1: M, m2: M)
    requires m1 != m2
    requires c.encode(m1).Some? && c.encode(m2).Some?
    requires |c.encode(m1).value| > BufferSize && |c.encode(m2).value| > BufferSize
    requires c.encode(m1).value[..BufferSize] == c.encode(m2).value[..BufferSize]
    ensures Received(c, Read(c.encode(m1).value)) == Received(c, Read(c.encode(m2).value))
    ensures Received(c, Read(c.encode(m1).value)) != Ok(m1) || Received(c, Read(c.encode(m2).value)) != Ok(m2)
  {
    FrameTruncates(c.encode(m1).value);
    FrameTruncates(c.encode(m2).value);
  }

  /** The send half of a stream: the buffers handed to `write_all`, in order,
      and whether the half has been finished. */
  class SendStream {
    var writes: seq<seq<byte>>
    var finished: bool

    constructor ()
      ensures writes == [] && !finished
    {
      writes := [];
      finished := false;
    }

    /** `write_all`; `accepted` says whether the transport takes the bytes.
        Writing to a finished half fails. */
    method WriteAll(data: seq<byte>, accepted: bool) returns (res: Outcome)
      modifies this
      ensures res.Pass? <==> accepted && !old(finished)
      ensures res.Fail? ==> res.error == TransportError
      ensures writes == if res.Pass? then old(writes) + [data] else old(writes)
      ensures finished == old(finished)
    {
      if accepted && !finished {
        writes := writes + [data];
        res := Pass;
      } else {
        res := Fail(TransportError);
      }
    }

    /** `finish`; once finished, the half stays finished. */
    method Finish(accepted: bool) returns (res: Outcome)
      modifies this
      ensures res.Pass? <==> accepted && !old(finished)
      ensures res.Fail? ==> res.error == TransportError
      ensures finished == (old(finished) || res.Pass?)
      ensures writes == old(writes)
    {
      if accepted && !finished {
        finished := true;
        res := Pass;
      } else {
        res := Fail(TransportError);
      }
    }
  }

  /** The bytes one `send` of `m` puts on a stream, or why it fails. */
  function Transmitted<M>(c: Codec<M>, m: M, accepted: bool): Result<seq<byte>>
  {
    match c.encode(m)
    case None => Err(EncodeFailed)
    case Some(bytes) => if accepted then Ok(bytes) else Err(TransportError)
  }

  /** `send`: encode `m`, then `write_all` the whole encoding. */
  method Send<M>(c: Codec<M>, m: M, stream: SendStream, accepted: bool) returns (res: Outcome)
    modifies stream
    ensures c.encode(m).None? ==> res == Fail(EncodeFailed)
    ensures c.encode(m).Some? && res.Fail? ==> res == Fail(TransportError)
    ensures res.Pass? <==> Transmitted(c, m, accepted && !old(stream.finished)).Ok?
    ensures res.Fail? ==> Transmitted(c, m, accepted && !old(stream.finished)) == Err(res.error)
    ensures res.Pass? ==> stream.writes == old(stream.writes) + [Transmitted(c, m, accepted).value]
    ensures res.Pass? <==> c.encode(m).Some? && accepted && !old(stream.finished)
    ensures stream.writes == if res.Pass? then old(stream.writes) + [c.encode(m).value] else old(stream.writes)
    ensures stream.finished == old(stream.finished)
  {
    match c.encode(m)
    case None =>
      res := Fail(EncodeFailed);
    case Some(bytes) =>
      res := stream.WriteAll(bytes, accepted);
  }
}
