/** The server (src/bin/server.rs): the shared message store, the per-connection
    handler, and the accept loop with every handler run as one atomic step on
    the store, in arrival order. */
module Server {
  import opened Protocol

  /** The process-wide list of posted messages, created empty at start-up and
      shared by every handler. */
  class Store {
    var messages: seq<string>

    constructor ()
      ensures messages == []
    {
      messages := [];
    }

    /** A copy of the contents, in order. */
    method Snapshot() returns (copy: seq<string>)
      ensures copy == messages
    {
      copy := messages;
    }

    method Length() returns (n: nat)
      ensures n == |messages|
    {
      n := |messages|;
    }

    method Push(content: string)
      modifies this
      ensures messages == old(messages) + [content]
    {
      messages := messages + [content];
    }

    method Clear()
      modifies this
      ensures messages == []
    {
      messages := [];
    }
  }

  /** The new store contents and the reply after one request. */
  datatype Effect = Effect(store: seq<string>, reply: ServerToClient)

  /** The dispatch in `handle_connection`: request `req` applied to store
      contents `s` while the lock is held. */
  function Step(s: seq<string>, req: ClientToServer): (e: Effect)
    ensures req.GetAll? ==> e.store == s && e.reply == Messages(s)
    ensures req.GetLen? ==> e.store == s && e.reply == MessagesLen(|s|)
    ensures req.Post? ==> |e.store| == |s| + 1 && e.store[..|s|] == s && e.store[|s|] == req.content
    ensures req.Clear? ==> e.store == []
    ensures e.reply == OK <==> req.Post? || req.Clear?
    ensures !e.reply.Hello?
  {
    match req
    case GetAll => Effect(s, Messages(s))
    case GetLen => Effect(s, MessagesLen(|s|))
    case Post(content) => Effect(s + [content], OK)
    case Clear => Effect([], OK)
  }

  /** Whether the transport completes each of the handler's three stream
      operations: sending Hello, sending the reply, finishing the send half. */
  datatype HandlerIo = HandlerIo(helloAccepted: bool, replyAccepted: bool, finishAccepted: bool)

  /** What one handler leaves behind: the store contents, the buffers it
      wrote, whether it finished its send half, and its result. */
  datatype HandlerRun = HandlerRun(store: seq<string>, writes: seq<seq<byte>>, finished: bool, outcome: Outcome)

  /** The request a handler applies to the store, if it gets that far: Hello
      must have been sent and the request received and decoded. It does not
      depend on the store. */
  function Applied(w: Wire, io: HandlerIo, request: StreamRead): Option<ClientToServer>
  {
    if Transmitted(w.rep, Hello, io.helloAccepted).Err? then None
    else match Received(w.req, request)
      case Ok(q) => Some(q)
      case Err(_) => None
  }

  /** `handle_connection` on store contents `s`: send Hello, read one request,
      apply it, send one reply, finish. */
  function Handle(w: Wire, s: seq<string>, io: HandlerIo, request: StreamRead): (run: HandlerRun)
    ensures run.store == match Applied(w, io, request)
                         case Some(q) => Step(s, q).store
                         case None => s
    ensures |run.writes| <= 2
    ensures |run.writes| >= 1 ==> w.rep.encode(Hello) == Some(run.writes[0])
    ensures Applied(w, io, request).Some? ==> |run.writes| >= 1
    ensures |run.writes| == 2 ==>
              Applied(w, io, request).Some? &&
              w.rep.encode(Step(s, Applied(w, io, request).value).reply) == Some(run.writes[1])
    ensures run.outcome.Pass? <==> |run.writes| == 2 && run.finished
    ensures run.finished ==> |run.writes| == 2
    ensures Received(w.req, request).Err? ==> run.outcome.Fail? && run.store == s
  {
    match Transmitted(w.rep, Hello, io.helloAccepted)
    case Err(e) => HandlerRun(s, [], false, Fail(e))
    case Ok(hello) =>
      match Received(w.req, request)
      case Err(e) => HandlerRun(s, [hello], false, Fail(e))
      case Ok(q) =>
        var eff := Step(s, q);
        match Transmitted(w.rep, eff.reply, io.replyAccepted)
        case Err(e) => HandlerRun(eff.store, [hello], false, Fail(e))
        case Ok(reply) =>
          if io.finishAccepted then HandlerRun(eff.store, [hello, reply], true, Pass)
          else HandlerRun(eff.store, [hello, reply], false, Fail(TransportError))
  }

  /** `handle_connection` over the shared store and a newly opened send half. */
  method HandleConnection(w: Wire, store: Store, send: SendStream, io: HandlerIo, request: StreamRead)
    returns (res: Outcome)
    requires send.writes == [] && !send.finished
    modifies store, send
    ensures store.messages == Handle(w, old(store.messages), io, request).store
    ensures send.writes == Handle(w, old(store.messages), io, request).writes
    ensures send.finished == Handle(w, old(store.messages), io, request).finished
    ensures res == Handle(w, old(store.messages), io, request).outcome
  {
    res := Send(w.rep, Hello, send, io.helloAccepted);
    if res.Fail? {
      return;
    }
    var msg, _ := Recv(w.req, request);
    if msg.Err? {
      return Fail(msg.error);
    }
    var reply: ServerToClient;
    match msg.value {
      case GetAll =>
        var copy := store.Snapshot();
        reply := Messages(copy);
      case GetLen =>
        var n := store.Length();
        reply := MessagesLen(n);
      case Post(content) =>
        store.Push(content);
        reply := OK;
      case Clear =>
        store.Clear();
        reply := OK;
    }
    res := Send(w.rep, reply, send, io.replyAccepted);
    if res.Fail? {
      return;
    }
    res := send.Finish(io.finishAccepted);
  }

  /** The requests `reqs` applied one after another from store contents `s`. */
  function Run(s: seq<string>, reqs: seq<ClientToServer>): seq<string>
    decreases |reqs|
  {
    if reqs == [] then s else Run(Step(s, reqs[0]).store, reqs[1..])
  }

  /** The contents of the posts after the last Clear in `reqs`, in order. */
  function PostsSinceClear(reqs: seq<ClientToServer>): seq<string>
  {
    if reqs == [] then []
    else
      var last := reqs[|reqs| - 1];
      match last
      case Post(content) => PostsSinceClear(reqs[..|reqs| - 1]) + [content]
      case Clear => []
      case _ => PostsSinceClear(reqs[..|reqs| - 1])
  }

  /** Whether `reqs` contains a Clear. */
  predicate HasClear(reqs: seq<ClientToServer>)
  {
    exists i :: 0 <= i < |reqs| && reqs[i].Clear?
  }

  lemma {:induction false} RunSnoc(s: seq<string>, reqs: seq<ClientToServer>, q: ClientToServer)
    ensures Run(s, reqs + [q]) == Step(Run(s, reqs), q).store
    decreases |reqs|
  {
    if reqs == [] {
      assert reqs + [q] == [q];
    } else {
      assert (reqs + [q])[1..] == reqs[1..] + [q];
      RunSnoc(Step(s, reqs[0]).store, reqs[1..], q);
    }
  }

  /** The store law: after any sequence of requests, the store holds the
      contents posted since the last Clear in arrival order, preceded by the
      starting contents if there was no Clear. */
  lemma {:induction false} RunHistory(s: seq<string>, reqs: seq<ClientToServer>)
    ensures Run(s, reqs) == (if HasClear(reqs) then [] else s) + PostsSinceClear(reqs)
    ensures |Run(s, reqs)| == (if HasClear(reqs) then 0 else |s|) + |PostsSinceClear(reqs)|
    decreases |reqs|
  {
    if reqs == [] {
      assert !HasClear(reqs);
    } else {
      var init, q := reqs[..|reqs| - 1], reqs[|reqs| - 1];
      assert reqs == init + [q];
      RunSnoc(s, init, q);
      RunHistory(s, init);
      if q.Clear? {
        assert HasClear(reqs);
      } else {
        assert HasClear(reqs) == HasClear(init) by {
          if HasClear(reqs) {
            var i :| 0 <= i < |reqs| && reqs[i].Clear?;
            assert init[i].Clear?;
          }
          if HasClear(init) {
            var i :| 0 <= i < |init| && init[i].Clear?;
            assert reqs[i].Clear?;
          }
        }
      }
    }
  }

  /** Clear is idempotent: a second Clear leaves the store empty again and
      gives the same reply. */
  lemma ClearIdempotent(s: seq<string>)
    ensures Step(Step(s, Clear).store, Clear) == Step(s, Clear)
    ensures Step(s, Clear).store == [] && Step(s, Clear).reply == OK
  {
  }

  /** GetLen reports the length of the list GetAll would return at the same
      instant, and neither changes the store. */
  lemma LengthMatchesSnapshot(s: seq<string>)
    ensures Step(s, GetLen).reply.len == |Step(s, GetAll).reply.messages|
    ensures Step(s, GetLen).store == Step(s, GetAll).store == s
  {
  }

  /** One accepted connection: what its transport does and what its single
      request read is offered. */
  datatype Connection = Connection(io: HandlerIo, request: StreamRead)

  /** The requests the handlers of `conns` apply, in arrival order. */
  function AppliedRequests(w: Wire, conns: seq<Connection>): seq<ClientToServer>
  {
    if conns == [] then []
    else
      var last := conns[|conns| - 1];
      AppliedRequests(w, conns[..|conns| - 1]) +
        match Applied(w, last.io, last.request)
        case Some(q) => [q]
        case None => []
  }

  /** `main`: the store starts empty and the handlers of `conns` run against
      it one after another; it ends holding exactly the contents posted since
      the last applied Clear, in arrival order. */
  method ServeInOrder(w: Wire, conns: seq<Connection>) returns (store: Store)
    ensures store.messages == PostsSinceClear(AppliedRequests(w, conns))
    ensures store.messages == Run([], AppliedRequests(w, conns))
  {
    store := new Store();
    var i := 0;
    while i < |conns|
      invariant 0 <= i <= |conns|
      invariant store.messages == PostsSinceClear(AppliedRequests(w, conns[..i]))
    {
      var send := new SendStream();
      ghost var before := AppliedRequests(w, conns[..i]);
      var _ := HandleConnection(w, store, send, conns[i].io, conns[i].request);
      assert conns[..i + 1][..i] == conns[..i];
      match Applied(w, conns[i].io, conns[i].request) {
        case Some(q) =>
          assert AppliedRequests(w, conns[..i + 1]) == before + [q];
          assert (before + [q])[..|before|] == before;
        case None =>
          assert AppliedRequests(w, conns[..i + 1]) == before;
      }
      i := i + 1;
    }
    assert conns[..|conns|] == conns;
    RunHistory([], AppliedRequests(w, conns));
  }
}
