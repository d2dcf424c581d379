# quic-chat protocol and message store, in Dafny

quic-chat is a small message board that runs over QUIC. For each client
connection the server opens one bidirectional stream, which the client
accepts. The server first sends `Hello`. The client then
sends one request: `GetAll`, `GetLen`, `Post{content}` or `Clear`. The server
applies that request to a process-wide `Vec<String>` behind a mutex and sends
one reply: `Messages(list)`, `MessagesLen(n)` or `OK`. Both sides then finish
their send halves.

This project models that protocol, one module per source file:

- `protocol.dfy` (module `Protocol`, from `src/lib.rs`):
  - the two message enums, as datatypes;
  - the shared codec, as a `Codec` value holding an encode and a decode
    function;
  - `recv`, as a method that fills a zero-initialised 1024-byte array in a
    loop and then decodes the whole array;
  - `send`, as a method that appends the whole encoding to a `SendStream`
    object.

  The codec's behaviour is not modelled byte by byte. Two predicates state
  what the protocol relies on:
  - `RoundTrips`: decoding an encoding gives back the message.
  - `IgnoresPadding`: decoding is not disturbed by the zeros that follow a
    fitting encoding in the buffer.

  The lemmas take these as hypotheses. The 1024-byte truncation of `recv` is
  kept, not hidden. `FrameTruncates` and `TruncationConflates` state what an
  encoding longer than the buffer turns into. A `GetAll` reply carries the
  whole store. So once the store's encoding grows past 1024 bytes, the
  client's single read cannot receive it whole. For that reason
  `Client.ClientConformsToServer` requires the reply to fit.
- `server.dfy` (module `Server`, from `src/bin/server.rs`):
  - the shared store, as a class `Store` with one method per vector
    operation the handler uses;
  - the request dispatch, as the function `Step`;
  - `handle_connection`, as the method `HandleConnection`. It is proved
    against the function `Handle`, which covers every error path.
  - `main`'s accept loop, as `ServeInOrder`. It runs the handlers one after
    another on one store that starts empty.
- `client.dfy` (module `Client`, from `src/bin/client.rs`):
  - the client's protocol steps, as pure functions of the command and of what
    its two reads are offered;
  - a conformance lemma that wires a client session to the server handler.

Stream I/O becomes parameters:
- a `StreamRead` is either a failed read or the bytes a read is offered;
- booleans say whether the transport accepts each write and each finish.

Integers are unbounded. `MessagesLen` carries a `nat`. A vector's length
always fits a `usize`, so no wrap-around is modelled.

Two details of the client:
- The client offers only `post` and `get-all` (src/bin/client.rs:16-20), so it
  never sends `GetLen` or `Clear`; the server still handles all four.
- The client's first check is `assert_eq!(hello_msg, ServerToClient::Hello)`.
  `ServerToClient` derives no `PartialEq`, so the model tests the variant
  (`Hello?`). A failed `assert_eq!` or `assert!` panics in the source; the
  model maps that panic to `Err(ProtocolViolation)`. A `?` error ends the
  session with the error that occurred.

## Model

| member | source | states |
|---|---|---|
| `Protocol.Recv` | src/lib.rs:21-32 | One read into a fresh zero-filled 1024-byte array, then decode of the whole array (also `ServerToClient::recv`, src/lib.rs:50-61). It takes exactly the first `min(pending, 1024)` offered bytes and returns the rest, unread, for a later read. A failed read gives `TransportError`. Otherwise the result is the decode of `Frame(pending)` or `MalformedMessage`. The loop invariants prove the array equals `Frame`. |
| `Protocol.Frame` | src/lib.rs:24-28 | What decode receives is always 1024 bytes long. Position i holds the i-th read byte when i is less than the number read, and zero from there to 1023. |
| `Protocol.Received` | src/lib.rs:24-31 | `recv` never returns a message when the read fails or decode rejects the buffer. The only errors are `TransportError` and `MalformedMessage`. A message is returned exactly when decode of the full frame accepts it; a rejected frame gives `MalformedMessage`. |
| `Protocol.FrameKeepsFittingData` | src/lib.rs:24-28 | An encoding of at most 1024 bytes reaches decode whole, followed only by zeros up to 1024 bytes. |
| `Protocol.FrameTruncates` | src/lib.rs:53-57 | An encoding longer than 1024 bytes reaches decode as its first 1024 bytes only, which differs from the encoding. |
| `Protocol.RecvDeliversFitting` | src/lib.rs:64-78 | Assuming the codec round-trips and ignores trailing zeros: a message whose encoding fits the buffer and is offered whole to one read is received as itself. |
| `Protocol.TruncationConflates` | src/lib.rs:53-57 | Two different messages with over-long encodings that agree on their first 1024 bytes are received identically. So at least one of them is not delivered, whatever the codec. |
| `Protocol.Send` | src/lib.rs:15-19 | `send` appends exactly one buffer, the whole encoding of the message, and nothing else (also `ServerToClient::send`, src/lib.rs:44-48). It succeeds exactly when encoding succeeds and the transport accepts the write on an unfinished stream. An encode failure gives `EncodeFailed` and writes nothing. Its result and written buffer agree with `Transmitted`, the description of `send` the pure models use. |
| `Protocol.SendStream.constructor` | src/bin/server.rs:39 | A newly opened send half has no writes and is not finished. |
| `Protocol.SendStream.WriteAll` | src/lib.rs:16 | `write_all` appends its buffer when the transport accepts it and the half is not finished. Otherwise it fails with `TransportError` and changes nothing. |
| `Protocol.SendStream.Finish` | src/bin/server.rs:70 | `finish` marks the half finished when the transport accepts it. It never changes what was written. |
| `Server.Store.constructor` | src/bin/server.rs:20 | The shared store starts empty. |
| `Server.Store.Snapshot` | src/bin/server.rs:46-47 | The clone taken for `GetAll` is the current contents, in order, and the store is not changed. |
| `Server.Store.Length` | src/bin/server.rs:52-53 | The count for `GetLen` is the current number of messages, and the store is not changed. |
| `Server.Store.Push` | src/bin/server.rs:59-60 | `push` makes the content the new last element and keeps the earlier ones in order. |
| `Server.Store.Clear` | src/bin/server.rs:64-65 | `clear` leaves the store empty. |
| `Server.Step` | src/bin/server.rs:44-68 | `GetAll` replies `Messages` with the store as it stands and leaves it unchanged. `GetLen` replies its length and leaves it unchanged. `Post` adds the content as the new last element, keeps every earlier element in place, and replies `OK`. `Clear` empties the store. The reply is `OK` exactly for `Post` and `Clear`, and never `Hello`. |
| `Server.Handle` | src/bin/server.rs:31-72 | The handler writes at most two buffers. The first is always the encoding of `Hello`, and a request is applied only after it. If a second buffer is written, it is the encoding of `Step`'s reply. The store changes only by applying the one received request. A receive or decode failure ends the handler with an error and leaves the store unchanged. Success means exactly two writes followed by finish. |
| `Server.HandleConnection` | src/bin/server.rs:31-72 | The imperative handler over the shared `Store` and a newly opened send half. It leaves the store, the stream's writes, the finished flag and the result exactly as `Handle` says, including every error path. |
| `Server.RunHistory` | src/bin/server.rs:57-66 | After any sequence of requests, the store is the contents posted since the last `Clear`, in arrival order. If there was no `Clear`, the starting contents come first. Its length is the number of such posts plus, without a `Clear`, the starting length. |
| `Server.ClearIdempotent` | src/bin/server.rs:63-66 | `Clear` leaves the store empty and replies `OK`. A second `Clear` gives the same store and reply. |
| `Server.LengthMatchesSnapshot` | src/bin/server.rs:45-55 | At one store state, `GetLen`'s count equals the length of the list `GetAll` returns, and neither changes the store. |
| `Server.ServeInOrder` | src/bin/server.rs:20-26 | The store starts empty and is shared by every handler, run one after another. Afterwards it holds exactly the contents of the applied `Post`s since the last applied `Clear`, in arrival order. |
| `Client.RequestFor` | src/bin/client.rs:47-58 | The `GetAll` command sends `GetAll`. `Post{msg}` sends `Post{content: msg}` with the text unchanged. `GetLen` and `Clear` are never sent. |
| `Client.Session` | src/bin/client.rs:42-66 | A failed first read passes its error through with nothing sent. A session succeeds only if the first frame decodes to `Hello`. Any other decoded first frame is a `ProtocolViolation`, and nothing is sent. At most one request is written, only after `Hello`, and it is the encoding of the command's request. Success requires a reply of the matching kind: `Messages` for `GetAll`, `OK` for `Post`. A decoded reply of the wrong kind fails. The send half is finished only on success. Conversely, when every step goes through and the reply kind matches, the session returns that reply. |
| `Client.ClientConformsToServer` | src/bin/client.rs:42-66 | Assume a sound codec, and that `Hello`, the request and the reply each fit 1024 bytes. Then a client session whose reads are offered the server handler's writes (and whose request is the handler's read) passes every check, for any starting store. Both sides finish. The store changes as `Step` says, and a `GetAll` receives the whole store. |

## Left out

- QUIC and TLS setup is not modelled: endpoint construction, certificate files, and the client's disabled certificate verification (src/bin/client.rs:72-108, src/bin/server.rs:74-93). This is transport plumbing in foreign libraries.
- Connection establishment is not modelled: `conn.await`, `open_bi` and `accept_bi`, and their failures. They happen before any protocol step and touch no store. `endpoint.wait_idle` is also left out.
- The MessagePack byte layout is not modelled. The codec is a parameter. Round-trip and padding tolerance are hypotheses (`RoundTrips`, `IgnoresPadding`), not proved facts about `rmp_serde`.
- Concurrency is not modelled: `tokio::spawn`, the `Mutex`, and the lock guard held across the reply `send`. Each handler is one atomic step on the store, and `ServeInOrder` runs them in arrival order. Other interleavings are not represented.
- Partial reads are not covered by the conformance lemma. A QUIC read may return fewer bytes than the peer wrote. `Recv` models any offered bytes, but `Client.ClientConformsToServer` assumes each buffer arrives in one read.
- Protocol.SendStream.WriteAll: a failed write leaves the stream unchanged in the model. A real `write_all` may already have written part of its buffer.
- Logging, `dbg!` and clap parsing are left out. They carry no protocol behaviour.
- client-go/main.go is not part of this model.
