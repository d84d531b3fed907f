# go-packet: length-prefixed frames and a symbolic router, in Dafny

go-packet sends messages over a stream connection as frames. Each frame is
a four-byte signed length followed by the payload, in a configurable byte
order. The library has two layers:

- **The transport** (`packet.go`). `Packet.Write` frames a payload. It hands
  the frame to the connection whole, or in pieces of `WriteBufferSize`
  bytes. `Packet.Read` reads the connection into a scratch buffer of
  `ReadBufferSize` bytes. It appends what arrives to a reassembly buffer and
  returns the next complete frame. The reassembly state has three parts:
  the buffered bytes `ioBuffer`, their count `iol`, and the pending frame
  length `l`. When `l` is 0, a length prefix is awaited.
- **The router** (`route.go`). Route names get 16-bit identifiers in
  registration order. `RouteCT.Write` puts the identifier (two bytes) in
  front of the payload. `RouteCT.Listen` reads frames, splits off the
  identifier, calls every middleware in registration order and then calls
  that route's handler. The first error ends the loop.

The model has six modules. Each is one file.

- `Outcomes`: `Option`, `Result`, and the error kinds of the library.
- `Bytes`: bytes and the two's-complement integers that `encoding/binary`
  writes and reads, in both byte orders. It also has Go's `int32(x)`
  conversion.
- `Connection`: the `net.Conn` the transport talks to.
  - `Conn` is a class. It holds a queue of incoming chunks and a log of the
    chunks written so far.
  - The set `failing` names the `Write` calls that fail.
  - A `Read` into a buffer of `n` bytes takes at most `n` bytes of the first
    queued chunk. An empty queue means end of stream.
- `Framing`: the transport as functions on values. It covers the frame,
  the chunking, the effect of a `Write`, and the reassembly state machine
  of `Read`, `bRead` and `getPacketLen`. It also holds the lemmas about
  the transport.
- `Transport`: the class `Packet`, with the fields of the Go struct.
  `GetPacketLen`, `BRead`, `Read`, `BWrite` and `Write` are each proved to
  do what the matching `Framing` function says. The constructor and
  `NewConn` state the new fields directly.
- `Router`: the functions that describe the router, its lemmas, and the
  classes `RouteFun` and `RouteCT`.

Handlers and middlewares are pure functions. A handler maps a payload to an
optional error. A middleware maps a payload and a route name to an optional
error. `Handle` and `Listen` return, as a ghost value, the sequence of
callback invocations they made. The contracts state that sequence.

### Where the code and its documented intent differ

The model follows the code in each case:

- `findRoutes` never fails. An unknown name gives identifier 0 and no
  error. So `RouteFun.Route` with an unknown name installs the handler for
  route 0. It never reports "route not found".
- `NewRoute` never fills `rTos`, the map from identifier to name. Every
  middleware therefore gets the empty string as the route name
  (`Router.NamesAlwaysEmpty`).
- If a name appears twice, the later index wins (`Router.RouteIds`).
- A frame with a zero length prefix is never returned. The length 0 is the
  "awaiting prefix" marker. A zero-length frame followed by another frame is
  skipped (`Framing.ZeroLengthFrameSkipped`). A zero-length frame alone on
  the stream is never parsed (`Framing.LoneZeroFrameNotParsed`): its prefix
  stays buffered because the test after a read is `iol > 4`.
- `Listen` calls the handler even when `GetFun` found none. In Go this
  calls a nil function value and panics. The model gives `Error.Panic`.

### Panics

Go panics are modelled as one of two things:

- Outcomes:
  - A negative length prefix makes `make([]byte, l)` in `bRead` panic.
    This gives `Extract.Panicked`, then `ReadOutcome.Crashed`, then
    `Error.Panic` from `Packet.Read`, `RouteCT.Read` and `Listen`.
  - A call to a missing handler gives `Error.Panic`.
- Preconditions:
  - `Packet.NewConn` requires `ReadBufferSize >= 0`, because `make` panics
    on a negative size.
  - `Packet.Write` requires `WriteBufferSize >= 0`, because `bWrite` would
    panic on a negative size.
  - `Read` and `Write` require a `Packet` on which `NewConn` has run
    (`Valid()`). Before that, `conn` and `Endian` are nil.

## Model

| member | source | states |
|---|---|---|
| Bytes.EncodeInt | packet.go:68 | binary.Write of a k-byte signed integer: exactly k bytes; Bytes.DecodeEncode and Bytes.EncodeDecode prove it inverse to Bytes.DecodeInt |
| Bytes.DecodeInt | packet.go:161 | binary.Read of a k-byte signed integer: the value always fits in k bytes; inverse to Bytes.EncodeInt in both directions |
| Bytes.DecodeEncode | packet.go:159-163 | decoding the k-byte two's-complement encoding of v in byte order e gives v back |
| Bytes.EncodeDecode | packet.go:159-163 | encoding the decoded value of any byte string gives the same bytes back, so every 4-byte prefix is some int32 |
| Bytes.ToInt32 | packet.go:68 | Go's int32(x): the result is an int32, congruent to x modulo 2^32, and equal to x when x already fits |
| Bytes.EncodeInt32 | packet.go:68 | binary.Write of an int32 gives 4 bytes that decode to the same value |
| Bytes.EncodeInt16 | route.go:128 | binary.Write of an int16 gives 2 bytes that decode to the same value |
| Bytes.DecodeInt32 | packet.go:161 | any 4 bytes decode to an int32 whose encoding is those 4 bytes |
| Bytes.DecodeInt16 | route.go:116 | any 2 bytes decode to an int16 whose encoding is those 2 bytes |
| Bytes.ByteOrderMatters | packet.go:24-25 | an int32 written big-endian reads back little-endian as itself only when its four bytes are a palindrome |
| Bytes.EndianMismatch | packet.go:24-25 | the peers must agree on byte order: the length 1 written big-endian reads back little-endian as 16777216 |
| Connection.Take | packet.go:112 | one conn.Read returns at most cap bytes and exactly min(cap, first chunk) bytes; taken bytes plus the rest of the queue equal the queued stream; the queue measure decreases |
| Connection.Emit | packet.go:90-93 | writing a chunk sequence sends exactly the chunks before the first failing call; the attempt count includes the failing call; the error is WriteRefused exactly when some call failed |
| Connection.EmitCons | packet.go:78-98 | writing c then cs equals writing c, stopping if it failed, and otherwise writing cs from the new log |
| Connection.Conn.Read | packet.go:112-115 | an empty queue gives (0, EOF) with the buffer untouched; otherwise the first Take of the queue is copied to buf[..n], the rest of buf is untouched, and the queue is what remains |
| Connection.Conn.Write | packet.go:59 | a single conn.Write: the log changes as Emit of [q] says; the count is len(q) on success and 0 on error |
| Framing.Frame | packet.go:65-72 | lWrite's output is 4 bytes longer than the payload |
| Framing.FrameDecodes | packet.go:65-72 | the first 4 bytes of a frame decode to int32(len(payload)), and the rest is the payload |
| Framing.Chunks | packet.go:75-100 | bWrite's pieces concatenate to the buffer; each has at most WriteBufferSize bytes; all but the last have exactly that many; there is always at least one piece; none is empty unless the buffer is |
| Framing.Pieces | packet.go:58-61 | the conn.Write calls of a Write, one whole frame or bWrite's pieces, concatenate to the frame and are non-empty |
| Framing.WriteEffect | packet.go:52-62 | Packet.Write: at least one conn.Write call is made; the earlier log is kept as a prefix; success returns len(b)+4; failure returns (0, WriteRefused) |
| Framing.WriteUnchunked | packet.go:58-60 | with WriteBufferSize 0, one call: on success the frame is logged and the count is len(b)+4; on failure nothing is logged, (0, WriteRefused) |
| Framing.WriteChunked | packet.go:61 | with WriteBufferSize > 0, a successful Write logs exactly bWrite's pieces and returns len(b)+4 |
| Framing.WriteSucceeds | packet.go:52-62 | a successful Write appends exactly the frame to the byte stream and returns len(b)+4 |
| Framing.WriteFails | packet.go:90-93 | a failed Write returns (0, WriteRefused), keeps the earlier log as a prefix, stops at the first failing call, and has sent a proper prefix of the frame |
| Framing.EmitFails | packet.go:88-93 | for non-empty chunks, a failed emission has sent a proper prefix of their concatenation, and its last attempt is the failing call |
| Framing.WritesMakeStream | packet.go:52-72 | if successive Writes all succeed, the connection's byte stream grows by the frames of the payloads back to back |
| Framing.GetPacketLen | packet.go:159-163 | getPacketLen consumes four buffered bytes, which are the int32 encoding of the new l, and iol drops by 4 |
| Framing.TakeFrame | packet.go:135-147 | taking l bytes leaves the rest of the buffer; l becomes 0 and iol drops by l |
| Framing.BRead | packet.go:129-156 | bRead keeps iol counting the buffer; the count returned is the length of the data; the buffer shrinks by at least that much |
| Framing.BReadSpec | packet.go:129-156 | bRead panics exactly when the pending length is negative; it returns data exactly when 0 < length <= bytes after the prefix, and the data is those bytes; the next prefix is parsed exactly when four more bytes are buffered |
| Framing.BReadLast | packet.go:135-152 | when the buffer holds exactly the pending frame, bRead returns it and leaves the initial state |
| Framing.ReadLoop | packet.go:103-127 | Read returns only non-empty frames; each return consumed input or shrank the buffer; a failure is EOF on an exhausted connection |
| Framing.Arrived | packet.go:117-125 | the rest of a Read pass after conn.Read: same guarantees as ReadLoop, and it never grows the queue |
| Framing.ReadAll | packet.go:103-127 | successive Reads end with a Read that returns no frame |
| Framing.ReadErrorKeepsState | packet.go:112-115 | a Read on an exhausted connection fails with EOF and leaves the reassembly state as it was |
| Framing.BufferedFrameServed | packet.go:106-111 | a frame already fully buffered is returned without reading the connection |
| Framing.ReadExhausted | packet.go:112-115 | once every written frame was read, the next Read fails with EOF and an empty buffer |
| Framing.ReassembleAligned | packet.go:103-156 | from any state aligned with the stream, successive Reads return exactly the remaining payloads, in order, then EOF |
| Framing.FragmentationIndependence | packet.go:52-156 | however the stream of frames is split into chunks, and whatever the scratch buffer size, successive Reads return exactly the written non-empty payloads in order, then EOF |
| Framing.TwoFramesOneRead | packet.go:103-156 | two frames that arrive in one conn.Read come out of two Reads; the second Read serves the buffered frame |
| Framing.ZeroLengthFrameSkipped | packet.go:129-155 | a zero-length frame followed by a frame p yields p from one Read and leaves the initial state |
| Framing.LoneZeroFrameNotParsed | packet.go:120 | a lone zero-length frame is never parsed: Read fails with EOF with its 4-byte prefix still buffered |
| Transport.Packet.constructor | packet.go:9-26 | a Packet literal has the given settings, no connection, and empty reassembly state |
| Transport.Packet.NewConn | packet.go:29-49 | ReadBufferSize 0 becomes 1024; a missing byte order becomes big-endian; a fresh zeroed scratch buffer of ReadBufferSize bytes; the connection is stored; the reassembly state is kept |
| Transport.Packet.GetPacketLen | packet.go:159-163 | the fields change as Framing.GetPacketLen says |
| Transport.Packet.BRead | packet.go:129-156 | the result and the new fields are Framing.BRead's; the crash flag is set exactly when bRead panics |
| Transport.Packet.Read | packet.go:103-127 | the frame, the error, the new reassembly state and the remaining queue are Framing.ReadLoop's; on a connection error the scratch buffer is returned with the error; the write log is untouched |
| Transport.Packet.BWrite | packet.go:75-100 | the connection's log and the error are those of emitting Framing.Chunks(buf, WriteBufferSize); the count is total on success and 0 on error |
| Transport.Packet.Write | packet.go:52-62 | the connection's log, the count and the error are Framing.WriteEffect's for the Packet's byte order and WriteBufferSize |
| Router.RouteIds | route.go:36-41 | the route table holds exactly the listed names; each maps to an index holding that name; it is the last such index |
| Router.FindRoutesInList | route.go:62-68 | looking a name up in NewRoute's table gives its last index in the list, 0 when it is absent, and an identifier below 32767 |
| Router.RoutePayload | route.go:126-130 | RouteCT.Write's payload is 2 bytes longer than the data |
| Router.SplitRoute | route.go:114-117 | RouteCT.Read splits a frame of at least 2 bytes into an int16 whose encoding is its first two bytes, and the rest; a shorter frame gives (0, empty) |
| Router.RouteRoundTrip | route.go:109-131 | splitting a routed payload gives back the identifier and the data |
| Router.RoutedMessageDelivered | route.go:109-131 | a routed message written on one end and split into any chunks reaches the other end's Read as the same identifier and data; the next Read fails with EOF |
| Router.Chain | route.go:86-91 | the middleware loop calls middlewares k, k+1, ... in order with the payload and name; it stops at the first error and returns it; it succeeds exactly when all of them passed |
| Router.DispatchOrder | route.go:85-95 | the middlewares run in registration order; the handler runs last and only if all passed; its error is returned; a missing handler is a panic; a failing middleware's error is returned and nothing after it runs |
| Router.Dispatch | route.go:85-95 | one message of Listen: at most one call per middleware plus one handler call; the middleware calls come in registration order; success means every middleware and then the handler ran |
| Router.ListenSpec | route.go:79-97 | the Listen loop ends only with an error; the state it leaves is coherent and the queue never grows; the state is unknown only after a panic |
| Router.ListenStep | route.go:80-96 | one Listen pass: a read error or panic ends the loop with no calls, leaving the read's state; otherwise the frame's dispatch is a prefix of the calls; its error ends the loop; if there is none, the loop goes on from the new state |
| Router.NamesAlwaysEmpty | route.go:87 | because rTos is never filled, every middleware call in a Listen loop gets the empty name |
| Router.ListenEndsAtEOF | route.go:81-84 | Listen on a closed connection with nothing buffered makes no calls, returns EOF and leaves the empty state |
| Router.RouteFun.constructor | route.go:17-26 | a RouteFun literal has empty tables and no middleware |
| Router.RouteFun.Use | route.go:46-49 | appends the middleware to the list; never fails |
| Router.RouteFun.FindRoutes | route.go:62-68 | findRoutes: the identifier of a registered name, 0 for an unknown one, never an error |
| Router.RouteFun.Route | route.go:52-59 | installs the handler under the name's identifier, or under 0 for an unknown name; the other handlers are kept; never fails |
| Router.RouteFun.GetFun | route.go:100-106 | finds the handler exactly when one is installed under the identifier; otherwise FunNotFound |
| Router.RouteFun.NewConn | route.go:71-76 | a fresh RouteCT bound to the packet and this RouteFun |
| Router.RouteFun.Handle | route.go:85-95 | the middleware loop and handler call of one Listen pass make the calls and return the error that Dispatch states |
| Router.NewRoute | route.go:29-43 | fails with TooManyRoutes exactly when more than 32767 names are given; otherwise the route table is RouteIds of the names; rTos, handlers and middlewares are empty |
| Router.RouteCT.constructor | route.go:10-15 | a RouteCT literal holds the packet and the RouteFun |
| Router.RouteCT.Read | route.go:109-118 | a frame from Packet.Read is split by SplitRoute; a read error or panic gives (0, empty, err); the new transport state is Framing.ReadLoop's |
| Router.RouteCT.Write | route.go:121-131 | an unknown name gives (0, RouteNotFound) and writes nothing; otherwise the effect is Packet.Write of the routed payload |
| Router.RouteCT.Listen | route.go:79-97 | the calls made, the error returned and the packet's final state and queue are ListenSpec's for the packet's state, its queued input and the RouteFun's tables; nothing is written to the connection; the packet stays connected |

## Left out

- The `net.Conn` is a finite queue of chunks plus a set of failing `Write` calls. Left out:
  - blocking;
  - timeouts;
  - a failing `Write` that sends part of its bytes and returns their count with the error. The model's failing call sends nothing and returns 0. For an unchunked `Packet.Write` Go would return that partial count, and the one-call failure case of Framing.WriteUnchunked and Framing.WriteFails would log the partial bytes;
  - errors other than end of stream and a refused write.
- Error values are kinds. Their message texts are left out. The text of NewRoute's error ("routes not gt 255") is one of them.
- The `*RouteCT` argument that callbacks receive is not modelled. Nor are their side effects: handlers and middlewares are pure functions, so they cannot write on the connection from inside `Listen`.
- Transport.Packet.Read: `iol += int32(l)` is modelled on unbounded integers. Go would wrap after 2^31-1 buffered bytes. The `int32(buf.Len())` of `bWrite` is not modelled either.
- Transport.Packet.Read: after a panic inside `bRead`, the contract states the result but not the packet's fields.
- Router.RouteCT.Listen: for the same reason, after a panic the final reassembly state and queue are not given.
- Transport.Packet.NewConn: requires `ReadBufferSize >= 0` instead of modelling the panic of `make`. The `ioBuffer == nil` test is not modelled: the reassembly buffer is a value that always exists.
- Transport.Packet.Write: requires `WriteBufferSize >= 0` instead of modelling the panic in `bWrite`.
- Router.NewRoute: on error the Go code returns a `RouteFun` whose maps are nil, and a later `Route` on it would panic. The model returns empty, usable tables.
- Router.RouteFun.constructor: the same holds for a `RouteFun{}` literal. In Go its maps are nil, so `Route` on it panics ("assignment to entry in nil map"). The model builds empty maps, so `Route` on it succeeds.
- The test `int32(l) == packet.l` in `bRead` is always true after a full `binary.Read`. The model leaves it out.
- `bytes.Buffer` growth and the reflection of `binary.Read`/`binary.Write` on slices are represented by sequence operations.
- Concurrency: one goroutine per connection, no shared state between them.
