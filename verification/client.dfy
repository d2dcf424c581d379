/** The client's protocol part (src/bin/client.rs, `main`): expect Hello, send
    the one request the command asks for, accept only the matching reply kind,
    finish. Stream operations enter as the outcomes the transport gives them. */
module Client {
  import opened Protocol
  import Server

  /** The two subcommands this client offers. */
  datatype Command = Post(msg: string) | GetAll

  /** The request a command sends. */
  function RequestFor(cmd: Command): (req: ClientToServer)
    ensures !req.GetLen? && !req.Clear?
    ensures req.Post? <==> cmd.Post?
    ensures cmd.Post? ==> req.content == cmd.msg
  {
    match cmd
    case Post(msg) => ClientToServer.Post(msg)
    case GetAll => ClientToServer.GetAll
  }

  /** The reply kind each command insists on; any payload is accepted. */
  predicate Accepts(cmd: Command, reply: ServerToClient)
  {
    match cmd
    case GetAll => reply.Messages?
    case Post(_) => reply.OK?
  }

  /** Whether the transport completes the client's two send-half operations:
      writing the request and finishing. */
  datatype SessionIo = SessionIo(requestAccepted: bool, finishAccepted: bool)

  /** What a session leaves behind: the buffers it wrote, whether it finished
      its send half, and the accepted reply or why it failed. */
  datatype SessionRun = SessionRun(writes: seq<seq<byte>>, finished: bool, outcome: Result<ServerToClient>)

  /** One client session given the outcome of its two reads: the first frame
      (which must be Hello) and the reply. A failed check ends the session
      with `ProtocolViolation`. */
  function Session(w: Wire, cmd: Command, io: SessionIo, first: StreamRead, reply: StreamRead): (run: SessionRun)
    ensures run.outcome.Ok? ==> Received(w.rep, first) == Ok(Hello)
    ensures Received(w.rep, first).Err? ==> run.outcome == Received(w.rep, first) && run.writes == []
    ensures Received(w.rep, first).Ok? && Received(w.rep, first) != Ok(Hello) ==>
              run.outcome == Err(ProtocolViolation) && run.writes == []
    ensures |run.writes| <= 1
    ensures |run.writes| == 1 ==>
              Received(w.rep, first) == Ok(Hello) && w.req.encode(RequestFor(cmd)) == Some(run.writes[0])
    ensures run.outcome.Ok? ==>
              |run.writes| == 1 && run.finished &&
              Accepts(cmd, run.outcome.value) && Received(w.rep, reply) == run.outcome
    ensures run.finished ==> run.outcome.Ok?
    ensures Received(w.rep, first) == Ok(Hello) && w.req.encode(RequestFor(cmd)).Some? &&
            io.requestAccepted && io.finishAccepted &&
            Received(w.rep, reply).Ok? && Accepts(cmd, Received(w.rep, reply).value) ==>
              run.outcome == Received(w.rep, reply)
    ensures Received(w.rep, reply).Ok? && !Accepts(cmd, Received(w.rep, reply).value) ==>
              run.outcome.Err?
  {
    match Received(w.rep, first)
    case Err(e) => SessionRun([], false, Err(e))
    case Ok(hello) =>
      if !hello.Hello? then SessionRun([], false, Err(ProtocolViolation))
      else
        match Transmitted(w.req, RequestFor(cmd), io.requestAccepted)
        case Err(e) => SessionRun([], false, Err(e))
        case Ok(request) =>
          match Received(w.rep, reply)
          case Err(e) => SessionRun([request], false, Err(e))
          case Ok(answer) =>
            if !Accepts(cmd, answer) then SessionRun([request], false, Err(ProtocolViolation))
            else if !io.finishAccepted then SessionRun([request], false, Err(TransportError))
            else SessionRun([request], true, Ok(answer))
  }

  /** Conformance: a client session run against the server's handler, each
      side's reads offered exactly the buffer the other side wrote, passes all
      of the client's checks for any starting store, provided the codec is
      sound and Hello, the request and the reply each fit the receive buffer.
      The server applies the request as `Step` says, and a GetAll sees the
      whole store. */
  lemma ClientConformsToServer(w: Wire, cmd: Command, s: seq<string>)
    requires Sound(w.req) && Sound(w.rep)
    requires Fits(w.rep, Hello) && Fits(w.req, RequestFor(cmd))
    requires Fits(w.rep, Server.Step(s, RequestFor(cmd)).reply)
    ensures
      var request := w.req.encode(RequestFor(cmd)).value;
      var srv := Server.Handle(w, s, Server.HandlerIo(true, true, true), Read(request));
      |srv.writes| == 2 &&
      var cli := Session(w, cmd, SessionIo(true, true), Read(srv.writes[0]), Read(srv.writes[1]));
      && cli.writes == [request]
      && cli.outcome.Ok? && cli.finished
      && srv.outcome.Pass? && srv.finished
      && srv.store == Server.Step(s, RequestFor(cmd)).store
      && (cmd.GetAll? ==> cli.outcome.value == Messages(s))
      && (cmd.Post? ==> srv.store == s + [cmd.msg])
  {
    var q := RequestFor(cmd);
    RecvDeliversFitting(w.req, q);
    RecvDeliversFitting(w.rep, Hello);
    RecvDeliversFitting(w.rep, Server.Step(s, q).reply);
  }
}
