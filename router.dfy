/**
 * The symbolic router of route.go: route names are numbered by their
 * position in the list given to NewRoute, each message on the wire is the
 * int16 route id followed by the payload, and Listen reads messages, runs
 * the middlewares in registration order and then the handler of the id.
 */
module Router {
  import opened Bytes
  import opened Outcomes
  import opened Connection
  import Framing
  import Transport

  /** A route callback: gets the payload, returns nil or an error. */
  type Handler = seq<byte> -> Option<Error>

  /** A middleware: gets the payload and the route's name, returns nil or an error. */
  type Middleware = (seq<byte>, string) -> Option<Error>

  /** NewRoute refuses more names than an int16 can number. */
  const MaxRoutes := 32767

  // ------------------------------------------------------------ route table

  /**
   * The table that NewRoute's loop builds: every listed name, mapped to the
   * position of its last occurrence (a later duplicate overwrites).
   */
  function RouteIds(s: seq<string>): (m: map<string, int>)
    ensures forall name :: name in m <==> name in s
    ensures forall name :: name in m ==> 0 <= m[name] < |s| && s[m[name]] == name
    ensures forall name, j :: name in m && m[name] < j < |s| ==> s[j] != name
  {
    if s == [] then map[]
    else
      var init, last := s[..|s| - 1], s[|s| - 1];
      assert s == init + [last];
      RouteIds(init)[last := |s| - 1]
  }

  /** findRoutes over a table built from s: the last position of a listed name, 0 otherwise, and never an error. */
  lemma FindRoutesInList(rf: RouteFun, s: seq<string>, name: string)
    requires rf.routes == RouteIds(s)
    ensures var (id, err) := rf.FindRoutes(name);
      && err == None
      && (|s| <= MaxRoutes ==> 0 <= id < MaxRoutes)
      && (name in s ==> 0 <= id < |s| && s[id] == name && forall j :: id < j < |s| ==> s[j] != name)
      && (name !in s ==> id == 0)
  {
  }

  // ------------------------------------------------------- messages on the wire

  /** RouteCT.Write's payload: the route id as an int16 in byte order e, then the data. */
  function RoutePayload(id: int, data: seq<byte>, e: Endian): (r: seq<byte>)
    requires IsInt16(id)
    ensures |r| == |data| + 2
  {
    EncodeInt16(id, e) + data
  }

  /**
   * RouteCT.Read's split of a frame: with at least two bytes, the frame is the
   * int16 id followed by the payload; a shorter frame gives id 0 and no bytes
   * (binary.Read's error is ignored and the byte it consumed is lost).
   */
  function SplitRoute(frame: seq<byte>, e: Endian): (r: (int, seq<byte>))
    ensures |frame| >= 2 ==> IsInt16(r.0) && frame == EncodeInt16(r.0, e) + r.1
    ensures |frame| < 2 ==> r == (0, [])
  {
    if |frame| >= 2 then
      DecodeInt16(frame[..2], e);
      assert frame == frame[..2] + frame[2..];
      (DecodeInt(frame[..2], e), frame[2..])
    else
      (0, [])
  }

  /** Splitting a routed payload gives back the id and the data. */
  lemma RouteRoundTrip(id: int, data: seq<byte>, e: Endian)
    requires IsInt16(id)
    ensures SplitRoute(RoutePayload(id, data, e), e) == (id, data)
  {
    var p := RoutePayload(id, data, e);
    assert p[..2] == EncodeInt16(id, e);
    assert p[2..] == data;
  }

  /**
   * End to end: whatever the chunking of the bytes of one routed message, a
   * fresh Packet reads it back whole and the router splits it into the id
   * and the data that were written; the next read meets EOF.
   */
  lemma RoutedMessageDelivered(id: int, data: seq<byte>, chunks: seq<seq<byte>>, cap: nat, e: Endian)
    requires IsInt16(id) && |data| + 2 < 0x8000_0000 && cap > 0
    requires Flatten(chunks) == Framing.Frame(RoutePayload(id, data, e), e)
    ensures var r := Framing.ReadLoop(Framing.Initial, chunks, cap, e);
      && r.Got? && SplitRoute(r.d, e) == (id, data)
      && var next := Framing.ReadLoop(r.st, r.rest, cap, e);
      next.Failed? && next.err == EOF
  {
    var p := RoutePayload(id, data, e);
    var ps := [p];
    assert ps[0] == p && ps[1..] == [];
    assert Framing.Stream(ps, e) == Framing.Frame(p, e) + Framing.Stream([], e);
    assert Framing.Carriable(ps);
    Framing.FragmentationIndependence(ps, chunks, cap, e);
    var r := Framing.ReadLoop(Framing.Initial, chunks, cap, e);
    var all := Framing.ReadAll(Framing.Initial, chunks, cap, e);
    assert r.Got? && r.d == p;
    var tail := Framing.ReadAll(r.st, r.rest, cap, e);
    assert all.0 == [p] + tail.0 && all.1 == tail.1;
    var next := Framing.ReadLoop(r.st, r.rest, cap, e);
    assert tail.0 == [] && tail.1 == next;
    RouteRoundTrip(id, data, e);
  }

  // ------------------------------------------------------------ dispatching

  /** One callback invocation of Listen, in the order they happen. */
  datatype Call =
    | MiddlewareCall(index: nat, payload: seq<byte>, name: string)
    | HandlerCall(id: int, payload: seq<byte>)

  /**
   * The middlewares from index k on, in order, until one returns an error:
   * the calls made, each with the same payload and name, and that error.
   */
  function Chain(mws: seq<Middleware>, k: nat, payload: seq<byte>, name: string): (r: (seq<Call>, Option<Error>))
    requires k <= |mws|
    ensures |r.0| <= |mws| - k
    ensures forall j :: 0 <= j < |r.0| ==> r.0[j] == MiddlewareCall(k + j, payload, name)
    ensures forall j :: k <= j < k + |r.0| - 1 ==> mws[j](payload, name) == None
    ensures r.1 == None <==> |r.0| == |mws| - k && forall j :: k <= j < |mws| ==> mws[j](payload, name) == None
    ensures r.1 != None ==> |r.0| > 0 && r.1 == mws[k + |r.0| - 1](payload, name)
    decreases |mws| - k
  {
    if k == |mws| then ([], None)
    else
      var err := mws[k](payload, name);
      if err != None then ([MiddlewareCall(k, payload, name)], err)
      else
        var (calls, last) := Chain(mws, k + 1, payload, name);
        ([MiddlewareCall(k, payload, name)] + calls, last)
  }

  /** One more middleware of the chain, seen from the calls made before it. */
  lemma ChainStep(mws: seq<Middleware>, k: nat, payload: seq<byte>, name: string, before: seq<Call>)
    requires k < |mws|
    requires Chain(mws, 0, payload, name) == (before + Chain(mws, k, payload, name).0, Chain(mws, k, payload, name).1)
    ensures var calls, err := before + [MiddlewareCall(k, payload, name)], mws[k](payload, name);
      && (err != None ==> Chain(mws, 0, payload, name) == (calls, err))
      && (err == None ==>
           Chain(mws, 0, payload, name) == (calls + Chain(mws, k + 1, payload, name).0, Chain(mws, k + 1, payload, name).1))
  {
    var rest := Chain(mws, k + 1, payload, name).0;
    Framing.AppendAssoc(before, [MiddlewareCall(k, payload, name)], rest);
  }

  /**
   * What Listen does with one message (id, payload): the middlewares with
   * the route's name (rTos[id], "" when absent), then, if none failed, the
   * handler of id; a missing handler is a nil function call, which panics.
   */
  function Dispatch(mws: seq<Middleware>, handlers: map<int, Handler>, names: map<int, string>,
                    id: int, payload: seq<byte>): (r: (seq<Call>, Option<Error>))
    ensures |r.0| <= |mws| + 1
    ensures forall j :: 0 <= j < |r.0| && j < |mws| ==> r.0[j].MiddlewareCall? && r.0[j].index == j
    ensures r.1 == None ==> |r.0| == |mws| + 1 && r.0[|mws|] == HandlerCall(id, payload)
  {
    var name := if id in names then names[id] else "";
    var (calls, err) := Chain(mws, 0, payload, name);
    if err != None then (calls, err)
    else if id in handlers then (calls + [HandlerCall(id, payload)], handlers[id](payload))
    else (calls, Some(Panic))
  }

  /**
   * Every middleware runs before the handler, in registration order; the
   * handler runs exactly when every middleware passed and id has one, and
   * its error is the outcome; a failing middleware ends the message with
   * its error; with no handler the outcome is a panic.
   */
  lemma DispatchOrder(mws: seq<Middleware>, handlers: map<int, Handler>, names: map<int, string>,
                      id: int, payload: seq<byte>)
    ensures var (calls, err) := Dispatch(mws, handlers, names, id, payload);
      var name := if id in names then names[id] else "";
      var passed := forall j :: 0 <= j < |mws| ==> mws[j](payload, name) == None;
      && (passed && id in handlers <==> |calls| == |mws| + 1)
      && (forall j :: 0 <= j < |calls| && j < |mws| ==> calls[j] == MiddlewareCall(j, payload, name))
      && (passed && id in handlers ==> calls[|mws|] == HandlerCall(id, payload) && err == handlers[id](payload))
      && (passed && id !in handlers ==> |calls| == |mws| && err == Some(Panic))
      && (!passed ==> err != None && err == mws[|calls| - 1](payload, name))
  {
    var name := if id in names then names[id] else "";
    var (calls, err) := Chain(mws, 0, payload, name);
    if err != None {
      assert |calls| <= |mws|;
    }
  }

  /**
   * Listen run on a reassembly state st and the chunks still queued on the
   * connection: read a frame, split it, dispatch it, and go on until
   * something returns an error, which Listen returns. The calls made are
   * collected in order; the last component is the reassembly state and the
   * queue Listen leaves behind, None after a panic inside bRead.
   */
  function ListenSpec(st: Framing.Reader, inc: seq<seq<byte>>, cap: nat, e: Endian,
                      mws: seq<Middleware>, handlers: map<int, Handler>, names: map<int, string>)
    : (r: (seq<Call>, Option<Error>, Option<(Framing.Reader, seq<seq<byte>>)>))
    requires Framing.Coherent(st) && cap > 0
    ensures r.1 != None
    ensures r.2.Some? ==> Framing.Coherent(r.2.value.0) && Measure(r.2.value.1) <= Measure(inc)
    ensures r.2.None? ==> r.1 == Some(Panic)
    decreases Measure(inc), |st.buf|
  {
    var o := Framing.ReadLoop(st, inc, cap, e);
    if o.Crashed? then ([], Some(Panic), None)
    else if o.Failed? then ([], Some(o.err), Some((o.st, o.rest)))
    else
      var (id, payload) := SplitRoute(o.d, e);
      var (calls, err) := Dispatch(mws, handlers, names, id, payload);
      if err != None then (calls, err, Some((o.st, o.rest)))
      else
        var (more, last, left) := ListenSpec(o.st, o.rest, cap, e, mws, handlers, names);
        (calls + more, last, left)
  }

  /**
   * One iteration of Listen: a read error or panic ends Listen before any
   * callback runs; otherwise the message is dispatched, a callback error
   * ends Listen with exactly that message's calls, and with no error the
   * next iteration follows from the state the read left.
   */
  lemma ListenStep(st: Framing.Reader, inc: seq<seq<byte>>, cap: nat, e: Endian,
                   mws: seq<Middleware>, handlers: map<int, Handler>, names: map<int, string>)
    requires Framing.Coherent(st) && cap > 0
    ensures var o := Framing.ReadLoop(st, inc, cap, e);
      var r := ListenSpec(st, inc, cap, e, mws, handlers, names);
      && (o.Failed? ==> r == ([], Some(o.err), Some((o.st, o.rest))))
      && (o.Crashed? ==> r == ([], Some(Panic), None))
      && (o.Got? ==>
           var (id, payload) := SplitRoute(o.d, e);
           var (calls, err) := Dispatch(mws, handlers, names, id, payload);
           && |r.0| >= |calls| && r.0[..|calls|] == calls
           && (err != None ==> r == (calls, err, Some((o.st, o.rest))))
           && (err == None ==>
                var later := ListenSpec(o.st, o.rest, cap, e, mws, handlers, names);
                r == (calls + later.0, later.1, later.2)))
  {
    var o := Framing.ReadLoop(st, inc, cap, e);
    if o.Got? {
      var (id, payload) := SplitRoute(o.d, e);
      var (calls, err) := Dispatch(mws, handlers, names, id, payload);
      var more := ListenSpec(o.st, o.rest, cap, e, mws, handlers, names).0;
      assert (calls + more)[..|calls|] == calls;
    }
  }

  /** Every middleware call in calls is given the empty name. */
  predicate NamesEmpty(calls: seq<Call>)
  {
    forall j :: 0 <= j < |calls| && calls[j].MiddlewareCall? ==> calls[j].name == ""
  }

  /** Since rTos is never filled in, every middleware Listen calls is given the empty name. */
  lemma {:induction false} NamesAlwaysEmpty(st: Framing.Reader, inc: seq<seq<byte>>, cap: nat, e: Endian,
                                            mws: seq<Middleware>, handlers: map<int, Handler>)
    requires Framing.Coherent(st) && cap > 0
    ensures NamesEmpty(ListenSpec(st, inc, cap, e, mws, handlers, map[]).0)
    decreases Measure(inc), |st.buf|
  {
    var o := Framing.ReadLoop(st, inc, cap, e);
    if o.Got? {
      var (id, payload) := SplitRoute(o.d, e);
      var (calls, err) := Dispatch(mws, handlers, map[], id, payload);
      DispatchOrder(mws, handlers, map[], id, payload);
      assert NamesEmpty(calls);
      if err == None {
        NamesAlwaysEmpty(o.st, o.rest, cap, e, mws, handlers);
        var more := ListenSpec(o.st, o.rest, cap, e, mws, handlers, map[]).0;
        assert ListenSpec(st, inc, cap, e, mws, handlers, map[]).0 == calls + more;
        assert forall j :: |calls| <= j < |calls + more| ==> (calls + more)[j] == more[j - |calls|];
      }
    }
  }

  /** When the connection is already exhausted and nothing is buffered, Listen returns EOF without calling anything, and leaves everything as it was. */
  lemma ListenEndsAtEOF(cap: nat, e: Endian, mws: seq<Middleware>, handlers: map<int, Handler>, names: map<int, string>)
    requires cap > 0
    ensures ListenSpec(Framing.Initial, [], cap, e, mws, handlers, names) == ([], Some(EOF), Some((Framing.Initial, [])))
  {
    assert Framing.ReadLoop(Framing.Initial, [], cap, e) == Framing.Failed(EOF, Framing.Initial, []);
  }

  // ------------------------------------------------------------ the objects

  /** RouteFun: the route table, the never-filled id-to-name table, the handlers and the middlewares. */
  class RouteFun {
    var routes: map<string, int>
    var rTos: map<int, string>
    var routesFun: map<int, Handler>
    var useFun: seq<Middleware>

    /** An empty RouteFun (also what NewRoute returns with its error). */
    constructor ()
      ensures routes == map[] && rTos == map[] && routesFun == map[] && useFun == []
    {
      routes := map[];
      rTos := map[];
      routesFun := map[];
      useFun := [];
    }

    /** Every route id fits the int16 that RouteCT.Write puts on the wire. */
    ghost predicate Valid()
      reads this
    {
      forall name :: name in routes ==> 0 <= routes[name] < MaxRoutes
    }

    /** Use: appends a middleware; never fails. */
    method Use(f: Middleware) returns (err: Option<Error>)
      modifies this`useFun
      ensures useFun == old(useFun) + [f] && err == None
    {
      useFun := useFun + [f];
      err := None;
    }

    /** findRoutes: the id of a registered name, 0 (and still no error) for any other name. */
    function FindRoutes(name: string): (r: (int, Option<Error>))
      reads this
      ensures r.1 == None
      ensures name !in routes ==> r.0 == 0
      ensures name in routes ==> r.0 == routes[name]
    {
      if name in routes then (routes[name], None) else (0, None)
    }

    /**
     * Route: binds f to the id findRoutes gives the name, so an unknown
     * name binds id 0; never fails.
     */
    method Route(name: string, f: Handler) returns (err: Option<Error>)
      modifies this`routesFun
      ensures name in routes ==> routesFun == old(routesFun)[routes[name] := f]
      ensures name !in routes ==> routesFun == old(routesFun)[0 := f]
      ensures err == None
    {
      var (id, ferr) := FindRoutes(name);
      if ferr != None {
        return Some(RouteNotFound);
      }
      routesFun := routesFun[id := f];
      err := None;
    }

    /** GetFun: the handler of id, or the error "not find fun". */
    function GetFun(id: int): (r: Result<Handler>)
      reads this
      ensures r.Success? <==> id in routesFun
      ensures r.Success? ==> r.value == routesFun[id]
      ensures r.Failure? ==> r.error == FunNotFound
    {
      if id in routesFun then Success(routesFun[id]) else Failure(FunNotFound)
    }

    /** NewConn: a RouteCT pairing the Packet with this table. */
    method NewConn(p: Transport.Packet) returns (ct: RouteCT)
      ensures fresh(ct) && ct.packet == p && ct.routeFun == this
    {
      ct := new RouteCT(p, this);
    }

    /**
     * Listen's handling of one message: the middlewares with the route's
     * name, in order, then the handler; as Dispatch says.
     */
    method Handle(id: int, payload: seq<byte>) returns (err: Option<Error>, ghost calls: seq<Call>)
      ensures (calls, err) == Dispatch(useFun, routesFun, rTos, id, payload)
    {
      var mws, name := useFun, if id in rTos then rTos[id] else "";
      var handler := GetFun(id);
      calls := [];
      assert [] + Chain(mws, 0, payload, name).0 == Chain(mws, 0, payload, name).0;
      for k := 0 to |mws|
        invariant Chain(mws, 0, payload, name) == (calls + Chain(mws, k, payload, name).0, Chain(mws, k, payload, name).1)
      {
        var merr := mws[k](payload, name);
        ChainStep(mws, k, payload, name, calls);
        calls := calls + [MiddlewareCall(k, payload, name)];
        if merr != None {
          return merr, calls;
        }
      }
      assert calls + [] == calls;
      if handler.Failure? {
        return Some(Panic), calls;
      }
      calls := calls + [HandlerCall(id, payload)];
      err := handler.value(payload);
    }
  }

  /**
   * NewRoute: more than 32767 names is an error (with an empty table);
   * otherwise each name gets the position of its last occurrence, and there
   * are no handlers, middlewares or names by id yet.
   */
  method NewRoute(s: seq<string>) returns (r: RouteFun, err: Option<Error>)
    ensures fresh(r) && r.Valid()
    ensures err == None <==> |s| <= MaxRoutes
    ensures err != None ==> err == Some(TooManyRoutes) && r.routes == map[]
    ensures err == None ==> r.routes == RouteIds(s)
    ensures r.rTos == map[] && r.routesFun == map[] && r.useFun == []
  {
    r := new RouteFun();
    if |s| > MaxRoutes {
      return r, Some(TooManyRoutes);
    }
    for k := 0 to |s|
      invariant r.routes == RouteIds(s[..k])
      invariant r.rTos == map[] && r.routesFun == map[] && r.useFun == []
    {
      assert s[..k + 1][..k] == s[..k];
      r.routes := r.routes[s[k] := k];
    }
    assert s[..|s|] == s;
    err := None;
  }

  /** RouteCT: one connection's Packet and the shared RouteFun. */
  class RouteCT {
    var packet: Transport.Packet
    var routeFun: RouteFun

    constructor (p: Transport.Packet, rf: RouteFun)
      ensures packet == p && routeFun == rf
    {
      packet := p;
      routeFun := rf;
    }

    /**
     * Read: one Packet.Read, split into route id and payload; on an error
     * the id is 0 and the payload empty.
     */
    method Read() returns (id: int, payload: seq<byte>, err: Option<Error>)
      requires packet.Valid()
      modifies packet`ioBuffer, packet`iol, packet`l, packet.conn, packet.b
      ensures packet.Valid() && packet.conn == old(packet.conn) && packet.b == old(packet.b)
      ensures packet.conn.sent == old(packet.conn.sent) && packet.conn.attempts == old(packet.conn.attempts)
      ensures var r := Framing.ReadLoop(old(packet.State()), old(packet.conn.incoming), packet.b.Length, packet.Order());
        && (r.Got? ==> (id, payload) == SplitRoute(r.d, packet.Order()) && err == None)
        && (r.Got? ==> packet.State() == r.st && packet.conn.incoming == r.rest)
        && (r.Failed? ==> id == 0 && payload == [] && err == Some(r.err))
        && (r.Failed? ==> packet.State() == r.st && packet.conn.incoming == r.rest)
        && (r.Crashed? ==> id == 0 && payload == [] && err == Some(Panic))
    {
      var frame, perr := packet.Read();
      if perr != None {
        return 0, [], perr;
      }
      id, payload := SplitRoute(frame, packet.Order()).0, SplitRoute(frame, packet.Order()).1;
      err := None;
    }

    /**
     * Write: an unregistered name is an error and nothing is sent; otherwise
     * the frame of RoutePayload(id, data) goes out through Packet.Write.
     */
    method Write(name: string, data: seq<byte>) returns (n: int, err: Option<Error>)
      requires packet.Valid() && packet.writeBufferSize >= 0 && routeFun.Valid()
      modifies packet.conn
      ensures packet.conn.incoming == old(packet.conn.incoming)
      ensures name !in routeFun.routes ==>
        n == 0 && err == Some(RouteNotFound) && packet.conn.Log() == old(packet.conn.Log())
      ensures name in routeFun.routes ==>
        (packet.conn.Log(), n, err)
          == Framing.WriteEffect(old(packet.conn.Log()), packet.conn.failing,
                                 RoutePayload(routeFun.routes[name], data, packet.Order()),
                                 packet.writeBufferSize, packet.Order())
    {
      if name !in routeFun.routes {
        return 0, Some(RouteNotFound);
      }
      var id := routeFun.routes[name];
      n, err := packet.Write(RoutePayload(id, data, packet.Order()));
    }

    /**
     * Listen: reads and dispatches messages until a read, a middleware or a
     * handler fails, and returns that error; the calls made, the error and
     * the state left behind are those of ListenSpec. Nothing is written.
     */
    method Listen() returns (err: Option<Error>, ghost calls: seq<Call>)
      requires packet.Valid()
      modifies packet`ioBuffer, packet`iol, packet`l, packet.conn, packet.b
      ensures packet.Valid() && packet.conn == old(packet.conn) && packet.b == old(packet.b)
      ensures packet.conn.sent == old(packet.conn.sent) && packet.conn.attempts == old(packet.conn.attempts)
      ensures var r := ListenSpec(old(packet.State()), old(packet.conn.incoming), packet.b.Length, packet.Order(),
                                  routeFun.useFun, routeFun.routesFun, routeFun.rTos);
        && calls == r.0 && err == r.1
        && (r.2.Some? ==> packet.State() == r.2.value.0 && packet.conn.incoming == r.2.value.1)
    {
      var cap, e := packet.b.Length, packet.Order();
      var mws, handlers, names := routeFun.useFun, routeFun.routesFun, routeFun.rTos;
      ghost var target := ListenSpec(packet.State(), packet.conn.incoming, cap, e, mws, handlers, names);
      calls := [];
      while true
        invariant packet.Valid() && packet.b == old(packet.b) && cap == packet.b.Length && e == packet.Order()
        invariant packet.conn == old(packet.conn)
        invariant packet.conn.sent == old(packet.conn.sent) && packet.conn.attempts == old(packet.conn.attempts)
        invariant routeFun.useFun == mws && routeFun.routesFun == handlers && routeFun.rTos == names
        invariant var now := ListenSpec(packet.State(), packet.conn.incoming, cap, e, mws, handlers, names);
          calls + now.0 == target.0 && now.1 == target.1 && now.2 == target.2
        decreases Measure(packet.conn.incoming), |packet.ioBuffer|
      {
        ghost var st, inc := packet.State(), packet.conn.incoming;
        var id, payload, rerr := Read();
        if rerr != None {
          assert ListenSpec(st, inc, cap, e, mws, handlers, names).0 == [];
          assert calls + [] == calls;
          return rerr, calls;
        }
        var herr, made := routeFun.Handle(id, payload);
        ghost var later := ListenSpec(packet.State(), packet.conn.incoming, cap, e, mws, handlers, names);
        Framing.AppendAssoc(calls, made, later.0);
        calls := calls + made;
        if herr != None {
          return herr, calls;
        }
      }
    }
  }
}
