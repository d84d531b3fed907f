/**
 * The frame transport of packet.go as functions on values: the frame that
 * Write puts on the wire, the chunking of bWrite, and the reassembly state
 * machine of Read, bRead and getPacketLen. Transport.Packet runs the same
 * steps on mutable fields and is proved equal to these functions.
 */
module Framing {
  import opened Bytes
  import opened Outcomes
  import opened Connection

  // ---------------------------------------------------------------- write side

  /** lWrite: int32(len(data)) in byte order e, then the data itself. */
  function Frame(data: seq<byte>, e: Endian): (r: seq<byte>)
    ensures |r| == |data| + 4
  {
    EncodeInt32(ToInt32(|data|), e) + data
  }

  /** A frame decodes back to its parts: the prefix reads as int32(len(data)), and the data follows it. */
  lemma FrameDecodes(data: seq<byte>, e: Endian)
    ensures var r := Frame(data, e);
      DecodeInt(r[..4], e) == ToInt32(|data|) && r[4..] == data
  {
    var prefix := EncodeInt32(ToInt32(|data|), e);
    assert (prefix + data)[..4] == prefix;
  }

  /**
   * The pieces bWrite hands to the connection: successive slices of size
   * bytes, the last one holding what is left (the loop always writes once).
   */
  function Chunks(buf: seq<byte>, size: nat): (r: seq<seq<byte>>)
    requires size > 0
    ensures |r| >= 1
    ensures Flatten(r) == buf
    ensures forall i :: 0 <= i < |r| ==> |r[i]| <= size
    ensures forall i :: 0 <= i < |r| - 1 ==> |r[i]| == size
    ensures buf != [] ==> forall i :: 0 <= i < |r| ==> r[i] != []
    decreases |buf|
  {
    if |buf| <= size then
      assert Flatten([buf]) == buf + Flatten([]);
      [buf]
    else
      var rest := Chunks(buf[size..], size);
      var r := [buf[..size]] + rest;
      assert r[1..] == rest;
      assert buf[..size] + buf[size..] == buf;
      r
  }

  /**
   * Packet.Write as seen from the connection: the frame is written in one
   * call (size 0) or as Chunks(frame, size); on success len(data)+4 is
   * returned, on the first failing call 0 and the error.
   */
  function WriteEffect(log: WireLog, failing: set<nat>, data: seq<byte>, size: nat, e: Endian)
    : (r: (WireLog, int, Option<Error>))
    ensures r.0.attempts > log.attempts
    ensures |r.0.sent| >= |log.sent| && r.0.sent[..|log.sent|] == log.sent
    ensures r.2 == None ==> r.1 == |data| + 4
    ensures r.2 != None ==> r.1 == 0 && r.2 == Some(WriteRefused)
  {
    var buf := Frame(data, e);
    var (after, err) := Emit(log, failing, Pieces(buf, size));
    (after, if err == None then |data| + 4 else 0, err)
  }

  /** Without chunking, Write issues exactly one conn.Write, of the whole frame. */
  lemma WriteUnchunked(log: WireLog, failing: set<nat>, data: seq<byte>, e: Endian)
    ensures var r := WriteEffect(log, failing, data, 0, e);
      && r.0.attempts == log.attempts + 1
      && (log.attempts !in failing ==> r.0.sent == log.sent + [Frame(data, e)] && r.1 == |data| + 4 && r.2 == None)
      && (log.attempts in failing ==> r.0.sent == log.sent && r.1 == 0 && r.2 == Some(WriteRefused))
  {
    var buf := Frame(data, e);
    var one: seq<seq<byte>> := [buf];
    assert one[..1] == one && one[..0] == [];
  }

  /** With chunking, a successful Write emits the pieces of Chunks(frame, size), in order. */
  lemma WriteChunked(log: WireLog, failing: set<nat>, data: seq<byte>, size: nat, e: Endian)
    requires size > 0
    ensures var r := WriteEffect(log, failing, data, size, e);
      r.2 == None ==> r.0.sent == log.sent + Chunks(Frame(data, e), size) && r.1 == |data| + 4
  {
  }

  /** A successful Write appends exactly the frame to the byte stream, whatever the chunking. */
  lemma WriteSucceeds(log: WireLog, failing: set<nat>, data: seq<byte>, size: nat, e: Endian)
    ensures var r := WriteEffect(log, failing, data, size, e);
      r.2 == None ==> Flatten(r.0.sent) == Flatten(log.sent) + Frame(data, e) && r.1 == |data| + 4
  {
    var buf := Frame(data, e);
    var cs := Pieces(buf, size);
    var r := WriteEffect(log, failing, data, size, e);
    if r.2 == None {
      assert cs[..|cs|] == cs;
      FlattenAppend(log.sent, cs);
      assert Flatten([buf]) == buf + Flatten([]);
    }
  }

  /**
   * A failing Write returns 0: the connection saw the calls for the pieces
   * before the failing one and the failing one itself, which is the last, so
   * only a proper prefix of the frame went out.
   */
  lemma WriteFails(log: WireLog, failing: set<nat>, data: seq<byte>, size: nat, e: Endian)
    ensures var r := WriteEffect(log, failing, data, size, e);
      r.2 != None ==>
        && r.1 == 0 && r.2 == Some(WriteRefused)
        && |r.0.sent| >= |log.sent| && r.0.sent[..|log.sent|] == log.sent
        && r.0.attempts == log.attempts + (|r.0.sent| - |log.sent|) + 1
        && r.0.attempts - 1 in failing
        && Flatten(r.0.sent[|log.sent|..]) < Frame(data, e)
  {
    var buf := Frame(data, e);
    EmitFails(log, failing, Pieces(buf, size));
  }

  /** Emitting non-empty chunks and failing leaves a proper prefix of their bytes on the wire. */
  lemma EmitFails(log: WireLog, failing: set<nat>, cs: seq<seq<byte>>)
    requires forall i :: 0 <= i < |cs| ==> cs[i] != []
    ensures var r := Emit(log, failing, cs);
      r.1 != None ==>
        && r.1 == Some(WriteRefused)
        && |r.0.sent| >= |log.sent| && r.0.sent[..|log.sent|] == log.sent
        && r.0.attempts == log.attempts + (|r.0.sent| - |log.sent|) + 1
        && r.0.attempts - 1 in failing
        && Flatten(r.0.sent[|log.sent|..]) < Flatten(cs)
  {
    var em := Emit(log, failing, cs);
    if em.1 != None {
      var k := FirstFailure(log.attempts, |cs|, failing);
      assert k < |cs|;
      assert em.0.sent == log.sent + cs[..k];
      assert em.0.sent[|log.sent|..] == cs[..k];
      ProperPrefix(cs, k);
      assert em.0.sent[..|log.sent|] == log.sent;
      assert |em.0.sent| - |log.sent| == k;
    }
  }

  /** What one Write hands to the connection: the whole frame when size is 0, else its Chunks. */
  function Pieces(buf: seq<byte>, size: nat): (cs: seq<seq<byte>>)
    ensures |cs| >= 1 && Flatten(cs) == buf
    ensures buf != [] ==> forall i :: 0 <= i < |cs| ==> cs[i] != []
  {
    if size == 0 then
      assert Flatten([buf]) == buf + Flatten([]);
      [buf]
    else Chunks(buf, size)
  }

  /** The chunks before a non-empty chunk flatten to a proper prefix of all of them. */
  lemma ProperPrefix(cs: seq<seq<byte>>, k: nat)
    requires k < |cs| && cs[k] != []
    ensures Flatten(cs[..k]) < Flatten(cs)
  {
    assert cs == cs[..k] + cs[k..];
    FlattenAppend(cs[..k], cs[k..]);
    assert cs[k..][0] == cs[k];
  }

  /** Successive Writes on one Packet, stopping at the first one that fails (a composition for stating properties). */
  function WriteAll(log: WireLog, failing: set<nat>, ps: seq<seq<byte>>, size: nat, e: Endian)
    : (r: (WireLog, bool))
    decreases |ps|
  {
    if ps == [] then (log, true)
    else
      var (after, _, err) := WriteEffect(log, failing, ps[0], size, e);
      if err != None then (after, false) else WriteAll(after, failing, ps[1..], size, e)
  }

  // ---------------------------------------------------------------- read side

  /** The frames of ps back to back: the byte stream that successive Writes produce. */
  function Stream(ps: seq<seq<byte>>, e: Endian): seq<byte>
  {
    if ps == [] then [] else Frame(ps[0], e) + Stream(ps[1..], e)
  }

  /** When every Write succeeds, the connection's output is the stream of the payloads. */
  lemma {:induction false} WritesMakeStream(log: WireLog, failing: set<nat>, ps: seq<seq<byte>>, size: nat, e: Endian)
    ensures var r := WriteAll(log, failing, ps, size, e);
      r.1 ==> Flatten(r.0.sent) == Flatten(log.sent) + Stream(ps, e)
    decreases |ps|
  {
    if ps != [] {
      var (after, _, err) := WriteEffect(log, failing, ps[0], size, e);
      WriteSucceeds(log, failing, ps[0], size, e);
      WritesMakeStream(after, failing, ps[1..], size, e);
    }
  }

  /** ioBuffer, iol and l of a Packet; l == 0 means that a length prefix is awaited. */
  datatype Reader = Reader(buf: seq<byte>, iol: int, l: int)

  /** The invariant the code relies on: iol counts the buffered bytes. */
  predicate Coherent(st: Reader)
  {
    st.iol == |st.buf|
  }

  /** The state of a Packet after NewConn on a fresh struct. */
  const Initial := Reader([], 0, 0)

  /** getPacketLen: the first four buffered bytes become the pending length. */
  function GetPacketLen(st: Reader, e: Endian): (r: Reader)
    requires Coherent(st) && st.iol >= 4
    ensures Coherent(r) && r.iol == st.iol - 4 && IsInt32(r.l)
    ensures st.buf == EncodeInt32(r.l, e) + r.buf
  {
    DecodeInt32(st.buf[..4], e);
    assert st.buf == st.buf[..4] + st.buf[4..];
    Reader(st.buf[4..], st.iol - 4, DecodeInt(st.buf[..4], e))
  }

  /** The extraction in bRead: the first l bytes are the frame, l is reset to 0 and iol drops by l. */
  function TakeFrame(st: Reader): (r: (seq<byte>, Reader))
    requires Coherent(st) && 0 <= st.l <= st.iol
    ensures |r.0| == st.l && st.buf == r.0 + r.1.buf
    ensures r.1.l == 0 && r.1.iol == st.iol - st.l && Coherent(r.1)
  {
    assert st.buf == st.buf[..st.l] + st.buf[st.l..];
    (st.buf[..st.l], Reader(st.buf[st.l..], st.iol - st.l, 0))
  }

  /** The outcome of bRead: make panics on a negative length; otherwise (dL, d) and the new state. */
  datatype Extract = Panicked | Extracted(n: int, d: seq<byte>, st: Reader)

  /** How many buffered bytes bRead treats as a length prefix before the frame. */
  function HeaderLength(st: Reader): nat
  {
    if st.l == 0 then 4 else 0
  }

  /** The length bRead extracts: the pending l, or the prefix it parses first when l is 0. */
  function PendingLength(st: Reader, e: Endian): int
    requires |st.buf| >= HeaderLength(st)
  {
    if st.l == 0 then DecodeInt(st.buf[..4], e) else st.l
  }

  /** bRead: parse a prefix if none is pending, then extract the frame if all of it is buffered. */
  function BRead(st: Reader, e: Endian): (r: Extract)
    requires Coherent(st) && st.iol >= HeaderLength(st)
    ensures r.Extracted? ==> Coherent(r.st) && r.n == |r.d| && |r.st.buf| <= |st.buf| - r.n
  {
    var s1 := if st.l == 0 then GetPacketLen(st, e) else st;
    if s1.iol >= s1.l then
      if s1.l < 0 then Panicked
      else
        var (d, s2) := TakeFrame(s1);
        Extracted(|d|, d, if s2.iol >= 4 then GetPacketLen(s2, e) else s2)
    else
      Extracted(0, [], s1)
  }

  /**
   * What bRead does, stated on the buffered bytes: it panics exactly when the
   * pending length is negative; it returns a frame exactly when the pending
   * length is positive and the whole payload is buffered, and the frame is the
   * bytes right after the prefix; after a frame, a next prefix is consumed at
   * once when at least four bytes are left, and otherwise l is back at 0.
   */
  lemma BReadSpec(st: Reader, e: Endian)
    requires Coherent(st) && st.iol >= HeaderLength(st)
    ensures var r := BRead(st, e);
      var h, len := HeaderLength(st), PendingLength(st, e);
      && (r.Panicked? <==> len < 0)
      && (r.Extracted? ==>
        && (r.n > 0 <==> 0 < len <= |st.buf| - h)
        && (r.n > 0 ==> r.d == st.buf[h..h + len])
        && (r.n > 0 && |st.buf| - h - len >= 4 ==> r.st.iol == |st.buf| - h - len - 4)
        && (r.n > 0 && |st.buf| - h - len < 4 ==> r.st.iol == |st.buf| - h - len && r.st.l == 0))
  {
    var s1 := if st.l == 0 then GetPacketLen(st, e) else st;
    assert st.buf[HeaderLength(st)..] == s1.buf;
  }

  /** The outcome of Packet.Read: a frame, a connection error, or a panic inside bRead. */
  datatype ReadOutcome =
    | Got(d: seq<byte>, st: Reader, rest: seq<seq<byte>>)
    | Failed(err: Error, st: Reader, rest: seq<seq<byte>>)
    | Crashed

  /**
   * The loop of Packet.Read from its top, on reader state st with the chunks
   * inc still queued on the connection and a scratch buffer of cap bytes:
   * serve a fully buffered frame, otherwise read once and go on in Arrived.
   * A returned frame is never empty; each returned frame either consumed
   * input or shrank the buffer; a failure means the input is exhausted.
   */
  function ReadLoop(st: Reader, inc: seq<seq<byte>>, cap: nat, e: Endian): (r: ReadOutcome)
    requires Coherent(st) && cap > 0
    ensures r.Got? ==> |r.d| > 0 && Coherent(r.st)
    ensures r.Got? ==> Measure(r.rest) < Measure(inc) || (r.rest == inc && |r.st.buf| < |st.buf|)
    ensures r.Failed? ==> r.err == EOF && r.rest == [] && Coherent(r.st)
    decreases Measure(inc), 0
  {
    var top := if st.l != 0 && st.iol >= st.l then BRead(st, e) else Extracted(0, [], st);
    if top.Panicked? then Crashed
    else if top.n > 0 then Got(top.d, top.st, inc)
    else if inc == [] then Failed(EOF, top.st, inc)
    else
      var (c, rest) := Take(inc, cap);
      Arrived(Reader(top.st.buf + c, top.st.iol + |c|, top.st.l), rest, cap, e)
  }

  /** The rest of one pass of the loop, after conn.Read appended its bytes: bRead once iol > 4, then loop. */
  function Arrived(st: Reader, rest: seq<seq<byte>>, cap: nat, e: Endian): (r: ReadOutcome)
    requires Coherent(st) && cap > 0
    ensures r.Got? ==> |r.d| > 0 && Coherent(r.st) && Measure(r.rest) <= Measure(rest)
    ensures r.Failed? ==> r.err == EOF && r.rest == [] && Coherent(r.st)
    decreases Measure(rest), 1
  {
    if st.iol > 4 then
      var r := BRead(st, e);
      if r.Panicked? then Crashed
      else if r.n > 0 then Got(r.d, r.st, rest)
      else ReadLoop(r.st, rest, cap, e)
    else
      ReadLoop(st, rest, cap, e)
  }

  /** Successive Reads until the first one that does not return a frame. */
  function ReadAll(st: Reader, inc: seq<seq<byte>>, cap: nat, e: Endian): (r: (seq<seq<byte>>, ReadOutcome))
    requires Coherent(st) && cap > 0
    ensures !r.1.Got?
    decreases Measure(inc), |st.buf|
  {
    var o := ReadLoop(st, inc, cap, e);
    if o.Got? then
      var (frames, last) := ReadAll(o.st, o.rest, cap, e);
      ([o.d] + frames, last)
    else
      ([], o)
  }

  // ------------------------------------------------ reassembly of written streams

  /** Payloads the transport delivers: non-empty (0 is the "awaiting prefix" sentinel) and below 2^31 bytes. */
  predicate Carriable(ps: seq<seq<byte>>)
  {
    forall i :: 0 <= i < |ps| ==> 0 < |ps[i]| < 0x8000_0000
  }

  /**
   * The reader, followed by the bytes still queued, is at a frame boundary of
   * the stream of ps with at most four unparsed bytes, or has parsed the
   * prefix of ps[0] and holds the start of its payload.
   */
  predicate Aligned(st: Reader, inc: seq<seq<byte>>, ps: seq<seq<byte>>, e: Endian)
  {
    && Coherent(st)
    && (|| (st.l == 0 && |st.buf| <= 4 && st.buf + Flatten(inc) == Stream(ps, e))
        || (ps != [] && st.l == |ps[0]| && st.buf + Flatten(inc) == ps[0] + Stream(ps[1..], e)))
  }

  lemma SplitCommon(a: seq<byte>, f: seq<byte>, p: seq<byte>, s: seq<byte>)
    requires a + f == p + s && |a| >= |p|
    ensures a[..|p|] == p && a[|p|..] + f == s
  {
    assert (a + f)[..|p|] == a[..|p|];
    assert (a + f)[|p|..] == a[|p|..] + f;
  }

  /** At a boundary with at least four bytes buffered, getPacketLen parses the length of the next payload. */
  lemma ParseAligned(st: Reader, inc: seq<seq<byte>>, ps: seq<seq<byte>>, e: Endian)
    requires Carriable(ps) && ps != [] && Coherent(st) && st.iol >= 4
    requires st.buf + Flatten(inc) == Stream(ps, e)
    ensures var r := GetPacketLen(st, e);
      r.l == |ps[0]| && r.buf + Flatten(inc) == ps[0] + Stream(ps[1..], e)
  {
    StreamCons(ps, e);
    var prefix := EncodeInt32(|ps[0]|, e);
    SplitCommon(st.buf, Flatten(inc), prefix, ps[0] + Stream(ps[1..], e));
    var r := GetPacketLen(st, e);
    assert r.l == |ps[0]| by { assert st.buf[..4] == prefix; }
  }

  /** The stream of non-empty payloads opens with the int32 prefix of the first one. */
  lemma StreamCons(ps: seq<seq<byte>>, e: Endian)
    requires ps != [] && 0 < |ps[0]| < 0x8000_0000
    ensures Stream(ps, e) == EncodeInt32(|ps[0]|, e) + (ps[0] + Stream(ps[1..], e))
  {
    var p, rest := ps[0], Stream(ps[1..], e);
    var prefix := EncodeInt32(|p|, e);
    assert ToInt32(|p|) == |p|;
    assert Stream(ps, e) == (prefix + p) + rest;
    AppendAssoc(prefix, p, rest);
  }

  lemma AppendAssoc<T>(a: seq<T>, b: seq<T>, c: seq<T>)
    ensures (a + b) + c == a + (b + c)
  {
  }

  /** When the whole pending payload is buffered, bRead returns it and leaves the reader aligned on the rest. */
  lemma ExtractAligned(st: Reader, inc: seq<seq<byte>>, ps: seq<seq<byte>>, e: Endian)
    requires Carriable(ps) && ps != [] && Coherent(st)
    requires st.l == |ps[0]| && st.iol >= st.l
    requires st.buf + Flatten(inc) == ps[0] + Stream(ps[1..], e)
    ensures var r := BRead(st, e);
      r.Extracted? && r.n > 0 && r.d == ps[0] && Aligned(r.st, inc, ps[1..], e)
  {
    SplitCommon(st.buf, Flatten(inc), ps[0], Stream(ps[1..], e));
    var (d, s2) := TakeFrame(st);
    assert s2.buf + Flatten(inc) == Stream(ps[1..], e);
    if s2.iol >= 4 {
      assert ps[1..] != [];
      assert Carriable(ps[1..]);
      ParseAligned(s2, inc, ps[1..], e);
      assert ps[1..][1..] == ps[2..];
    }
  }

  /**
   * The bRead after new bytes arrived (iol > 4): it returns the next payload
   * when all of it is buffered, and otherwise leaves the reader aligned on
   * the same payloads with the prefix parsed.
   */
  lemma StepAligned(grown: Reader, rest: seq<seq<byte>>, ps: seq<seq<byte>>, e: Endian)
    requires Carriable(ps) && ps != [] && grown.iol > 4 && Continues(grown, rest, ps, e)
    ensures var r := BRead(grown, e);
      && r.Extracted?
      && (r.n > 0 ==> r.d == ps[0] && Aligned(r.st, rest, ps[1..], e))
      && (r.n <= 0 ==> Aligned(r.st, rest, ps, e))
  {
    var s1 := if grown.l == 0 then GetPacketLen(grown, e) else grown;
    if grown.l == 0 {
      ParseAligned(grown, rest, ps, e);
    }
    assert s1.l == |ps[0]| && s1.buf + Flatten(rest) == ps[0] + Stream(ps[1..], e);
    if s1.iol >= s1.l {
      ExtractAligned(s1, rest, ps, e);
      assert BRead(grown, e) == BRead(s1, e);
    } else {
      assert BRead(grown, e) == Extracted(0, [], s1);
    }
  }

  /** Reading from an aligned state returns the next payload and stays aligned on the remaining ones. */
  lemma {:induction false} ReadAligned(st: Reader, inc: seq<seq<byte>>, ps: seq<seq<byte>>, cap: nat, e: Endian)
    requires Carriable(ps) && ps != [] && cap > 0 && Aligned(st, inc, ps, e)
    ensures var r := ReadLoop(st, inc, cap, e);
      r.Got? && r.d == ps[0] && Aligned(r.st, r.rest, ps[1..], e)
    decreases Measure(inc), 0
  {
    if st.l != 0 && st.iol >= st.l {
      ServedAligned(st, inc, ps, cap, e);
    } else {
      WaitAligned(st, inc, ps, cap, e);
      var (c, rest) := Take(inc, cap);
      ArrivedAligned(Reader(st.buf + c, st.iol + |c|, st.l), rest, ps, cap, e);
    }
  }

  /** The first pass of Read when the next payload is already buffered. */
  lemma ServedAligned(st: Reader, inc: seq<seq<byte>>, ps: seq<seq<byte>>, cap: nat, e: Endian)
    requires Carriable(ps) && ps != [] && cap > 0 && Aligned(st, inc, ps, e)
    requires st.l != 0 && st.iol >= st.l
    ensures var r := ReadLoop(st, inc, cap, e);
      r.Got? && r.d == ps[0] && Aligned(r.st, r.rest, ps[1..], e)
  {
    ExtractAligned(st, inc, ps, e);
    ReadLoopServes(st, inc, cap, e);
  }

  /** The first pass of Read when the next payload is not yet buffered: it reads from the connection and stays on course. */
  lemma WaitAligned(st: Reader, inc: seq<seq<byte>>, ps: seq<seq<byte>>, cap: nat, e: Endian)
    requires Carriable(ps) && ps != [] && cap > 0 && Aligned(st, inc, ps, e)
    requires !(st.l != 0 && st.iol >= st.l)
    ensures inc != []
    ensures var (c, rest) := Take(inc, cap);
      var grown := Reader(st.buf + c, st.iol + |c|, st.l);
      && ReadLoop(st, inc, cap, e) == Arrived(grown, rest, cap, e)
      && Continues(grown, rest, ps, e)
  {
    assert |Stream(ps, e)| == |Frame(ps[0], e)| + |Stream(ps[1..], e)|;
    assert |st.buf + Flatten(inc)| > |st.buf|;
    assert Flatten(inc) != [];
    var (c, rest) := Take(inc, cap);
    AppendAssoc(st.buf, c, Flatten(rest));
    ReadLoopWaits(st, inc, cap, e);
  }

  /** Between two passes of the loop: either no prefix is parsed and the stream of ps is ahead, or the prefix of ps[0] is parsed and its payload is ahead. */
  predicate Continues(st: Reader, rest: seq<seq<byte>>, ps: seq<seq<byte>>, e: Endian)
    requires ps != []
  {
    && Coherent(st)
    && (|| (st.l == 0 && st.buf + Flatten(rest) == Stream(ps, e))
        || (st.l == |ps[0]| && st.buf + Flatten(rest) == ps[0] + Stream(ps[1..], e)))
  }

  /**
   * A conn.Read error comes back at once and leaves the reassembly state as
   * it was when the pass began: with nothing queued, Read either serves a
   * buffered frame (or panics) or fails with EOF on the untouched state.
   */
  lemma ReadErrorKeepsState(st: Reader, cap: nat, e: Endian)
    requires Coherent(st) && cap > 0
    ensures var r := ReadLoop(st, [], cap, e);
      r.Failed? ==> r == Failed(EOF, st, [])
  {
    if st.l != 0 && st.iol >= st.l {
      BReadSpec(st, e);
    }
  }

  /** With a complete frame buffered, one pass of Read returns what bRead extracts without touching the connection. */
  lemma ReadLoopServes(st: Reader, inc: seq<seq<byte>>, cap: nat, e: Endian)
    requires Coherent(st) && cap > 0 && st.l != 0 && st.iol >= st.l
    requires BRead(st, e).Extracted? && BRead(st, e).n > 0
    ensures ReadLoop(st, inc, cap, e) == Got(BRead(st, e).d, BRead(st, e).st, inc)
  {
  }

  /** With no complete frame buffered and bytes queued, one pass of Read calls conn.Read and goes on in Arrived. */
  lemma ReadLoopWaits(st: Reader, inc: seq<seq<byte>>, cap: nat, e: Endian)
    requires Coherent(st) && cap > 0 && inc != [] && !(st.l != 0 && st.iol >= st.l)
    ensures var (c, rest) := Take(inc, cap);
      ReadLoop(st, inc, cap, e) == Arrived(Reader(st.buf + c, st.iol + |c|, st.l), rest, cap, e)
  {
  }

  lemma {:induction false} ArrivedAligned(st: Reader, rest: seq<seq<byte>>, ps: seq<seq<byte>>, cap: nat, e: Endian)
    requires Carriable(ps) && ps != [] && cap > 0 && Continues(st, rest, ps, e)
    ensures var r := Arrived(st, rest, cap, e);
      r.Got? && r.d == ps[0] && Aligned(r.st, r.rest, ps[1..], e)
    decreases Measure(rest), 1
  {
    ArrivedUnfolds(st, rest, cap, e);
    if st.iol > 4 {
      StepAligned(st, rest, ps, e);
      var r := BRead(st, e);
      if r.n <= 0 {
        ReadAligned(r.st, rest, ps, cap, e);
      }
    } else {
      ReadAligned(st, rest, ps, cap, e);
    }
  }

  /** Arrived is one bRead once more than 4 bytes are buffered, and otherwise a plain return to the loop. */
  lemma ArrivedUnfolds(st: Reader, rest: seq<seq<byte>>, cap: nat, e: Endian)
    requires Coherent(st) && cap > 0
    ensures st.iol <= 4 ==> Arrived(st, rest, cap, e) == ReadLoop(st, rest, cap, e)
    ensures st.iol > 4 && BRead(st, e).Extracted? ==>
      var r := BRead(st, e);
      Arrived(st, rest, cap, e) == if r.n > 0 then Got(r.d, r.st, rest) else ReadLoop(r.st, rest, cap, e)
  {
  }

  /** Once the stream is used up, Read reports EOF. */
  lemma {:induction false} ReadExhausted(st: Reader, inc: seq<seq<byte>>, cap: nat, e: Endian)
    requires cap > 0 && Aligned(st, inc, [], e)
    ensures var r := ReadLoop(st, inc, cap, e);
      r.Failed? && r.err == EOF && r.st.buf == [] && r.st.l == 0
    decreases Measure(inc)
  {
    assert st.buf == [] && Flatten(inc) == [];
    if inc != [] {
      var (c, rest) := Take(inc, cap);
      assert c == [] && Flatten(rest) == [];
      var grown := Reader(st.buf + c, st.iol + |c|, st.l);
      assert grown == st;
      ReadLoopWaits(st, inc, cap, e);
      ArrivedUnfolds(st, rest, cap, e);
      ReadExhausted(st, rest, cap, e);
    }
  }

  lemma {:induction false} ReassembleAligned(st: Reader, inc: seq<seq<byte>>, ps: seq<seq<byte>>, cap: nat, e: Endian)
    requires Carriable(ps) && cap > 0 && Aligned(st, inc, ps, e)
    ensures var r := ReadAll(st, inc, cap, e);
      r.0 == ps && r.1.Failed? && r.1.err == EOF
    decreases |ps|
  {
    if ps == [] {
      ReadExhausted(st, inc, cap, e);
    } else {
      ReadAligned(st, inc, ps, cap, e);
      var o := ReadLoop(st, inc, cap, e);
      assert Carriable(ps[1..]);
      ReassembleAligned(o.st, o.rest, ps[1..], cap, e);
    }
  }

  /**
   * Round trip and fragmentation independence: however the stream of
   * non-empty payloads is cut into chunks, and whatever the read size,
   * successive Reads on a fresh Packet return exactly the payloads, in
   * order, and then EOF.
   */
  lemma FragmentationIndependence(ps: seq<seq<byte>>, chunks: seq<seq<byte>>, cap: nat, e: Endian)
    requires Carriable(ps) && cap > 0 && Flatten(chunks) == Stream(ps, e)
    ensures var r := ReadAll(Initial, chunks, cap, e);
      r.0 == ps && r.1.Failed? && r.1.err == EOF
  {
    assert Aligned(Initial, chunks, ps, e);
    ReassembleAligned(Initial, chunks, ps, cap, e);
  }

  /** A frame that is already fully buffered is returned without reading from the connection. */
  lemma BufferedFrameServed(st: Reader, inc: seq<seq<byte>>, cap: nat, e: Endian)
    requires Coherent(st) && cap > 0 && st.l > 0 && st.iol >= st.l
    ensures var r := ReadLoop(st, inc, cap, e);
      r.Got? && r.d == st.buf[..st.l] && r.rest == inc
  {
  }

  /**
   * Two frames that arrive in one chunk are returned by two Reads; only the
   * first one reads from the connection.
   */
  lemma TwoFramesOneRead(p: seq<byte>, q: seq<byte>, cap: nat, e: Endian)
    requires Carriable([p, q]) && cap >= |p| + |q| + 8
    ensures var r1 := ReadLoop(Initial, [Frame(p, e) + Frame(q, e)], cap, e);
      && r1.Got? && r1.d == p && r1.rest == []
      && var r2 := ReadLoop(r1.st, r1.rest, cap, e);
      r2.Got? && r2.d == q && r2.rest == []
  {
    var chunk := Frame(p, e) + Frame(q, e);
    StartAligned(p, q, e);
    ReadAligned(Initial, [chunk], [p, q], cap, e);
    var r1 := ReadLoop(Initial, [chunk], cap, e);
    ReadsWholeChunk(chunk, cap, e);
    assert r1.rest == [];
    assert [p, q][1..] == [q];
    AlignedOnLast(r1.st, q, e);
    BReadLast(r1.st, e);
    ReadLoopServes(r1.st, r1.rest, cap, e);
  }

  /** A fresh reader facing one chunk that holds two frames is aligned on their payloads. */
  lemma StartAligned(p: seq<byte>, q: seq<byte>, e: Endian)
    ensures Aligned(Initial, [Frame(p, e) + Frame(q, e)], [p, q], e)
  {
    var chunk := Frame(p, e) + Frame(q, e);
    assert [p, q][0] == p && [p, q][1..] == [q] && [q][0] == q && [q][1..] == [];
    assert Stream([q], e) == Frame(q, e) + Stream([], e);
    assert Stream([p, q], e) == chunk;
    assert Flatten([chunk]) == chunk + Flatten([]);
    assert Initial.buf + Flatten([chunk]) == chunk;
  }

  /** From a fresh reader, a chunk that fits the scratch buffer is read whole in one conn.Read. */
  lemma ReadsWholeChunk(chunk: seq<byte>, cap: nat, e: Endian)
    requires cap >= |chunk| > 0
    ensures ReadLoop(Initial, [chunk], cap, e) == Arrived(Reader(chunk, |chunk|, 0), [], cap, e)
  {
    ReadLoopWaits(Initial, [chunk], cap, e);
    assert [chunk][0] == chunk && [chunk][1..] == [];
    assert Take([chunk], cap) == (chunk, []);
    assert Initial.buf + chunk == chunk;
  }

  /** Aligned on a last payload with nothing queued: its prefix is parsed and the payload is buffered. */
  lemma AlignedOnLast(st: Reader, q: seq<byte>, e: Endian)
    requires Carriable([q]) && Aligned(st, [], [q], e)
    ensures st.l == |q| && st.buf == q
  {
    assert [q][0] == q && [q][1..] == [];
    assert Stream([q], e) == Frame(q, e) + Stream([], e);
    assert Flatten([]) == [];
    assert st.buf + Flatten([]) == st.buf;
    assert |Stream([q], e)| == |q| + 4 > 4;
    assert q + Stream([], e) == q;
  }

  /**
   * A zero-length frame is swallowed: its prefix 0 looks like the
   * "awaiting prefix" sentinel, so the Read that parses it goes on to the
   * next frame instead of returning an empty one.
   */
  lemma ZeroLengthFrameSkipped(p: seq<byte>, cap: nat, e: Endian)
    requires 0 < |p| < 0x8000_0000 && cap >= |p| + 8
    ensures ReadLoop(Initial, [Frame([], e) + Frame(p, e)], cap, e) == Got(p, Initial, [])
  {
    var chunk := Frame([], e) + Frame(p, e);
    var grown := Reader(chunk, |chunk|, 0);
    ReadsWholeChunk(chunk, cap, e);
    var s1 := GetPacketLen(grown, e);
    assert chunk[..4] == Frame([], e)[..4];
    assert s1.l == 0 && s1.buf == Frame(p, e);
    var s2 := GetPacketLen(s1, e);
    assert Frame(p, e)[..4] == EncodeInt32(|p|, e);
    assert s2.l == |p| && s2.buf == p;
    assert TakeFrame(s1) == ([], s1);
    assert BRead(grown, e) == Extracted(0, [], s2);
    BReadLast(s2, e);
    assert ReadLoop(s2, [], cap, e) == Got(p, Initial, []);
  }

  /** A pending frame that is exactly what is buffered is returned whole, leaving a fresh reader. */
  lemma BReadLast(st: Reader, e: Endian)
    requires Coherent(st) && 0 < st.l == st.iol
    ensures BRead(st, e) == Extracted(st.l, st.buf, Initial)
  {
    assert st.buf[..st.l] == st.buf && st.buf[st.l..] == [];
    assert TakeFrame(st) == (st.buf, Initial);
  }

  /**
   * The strict gate iol > 4: a lone zero-length frame leaves exactly four
   * bytes buffered, which are never parsed; Read asks for more and meets EOF.
   */
  lemma LoneZeroFrameNotParsed(cap: nat, e: Endian)
    requires cap >= 4
    ensures ReadLoop(Initial, [Frame([], e)], cap, e) == Failed(EOF, Reader(Frame([], e), 4, 0), [])
  {
    var st := Reader(Frame([], e), 4, 0);
    ReadsWholeChunk(Frame([], e), cap, e);
    ArrivedUnfolds(st, [], cap, e);
    assert ReadLoop(st, [], cap, e) == Failed(EOF, st, []);
  }
}
