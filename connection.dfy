/**
 * An abstract stream connection (the net.Conn that a Packet wraps).
 * Reads are served from a finite queue of incoming chunks; an empty queue
 * means the peer has closed the stream and a read fails with EOF. Writes are
 * appended to a log; the k-th write call (counted from 0 over all calls)
 * fails exactly when k is in `failing`, and a failing call emits nothing.
 */
module Connection {
  import opened Bytes
  import opened Outcomes

  /** All bytes of a sequence of chunks, in order. */
  function Flatten(chunks: seq<seq<byte>>): seq<byte>
  {
    if chunks == [] then [] else chunks[0] + Flatten(chunks[1..])
  }

  lemma {:induction false} FlattenAppend(a: seq<seq<byte>>, b: seq<seq<byte>>)
    ensures Flatten(a + b) == Flatten(a) + Flatten(b)
  {
    if a != [] {
      assert (a + b)[0] == a[0] && (a + b)[1..] == a[1..] + b;
      FlattenAppend(a[1..], b);
    } else {
      assert a + b == b;
    }
  }

  /** A termination measure for reads: every chunk counts one more than its length. */
  function Measure(chunks: seq<seq<byte>>): nat
  {
    if chunks == [] then 0 else |chunks[0]| + 1 + Measure(chunks[1..])
  }

  /**
   * One conn.Read into a buffer of cap bytes: it delivers the head chunk, or
   * its first cap bytes when the chunk is longer, leaving the rest queued.
   */
  function Take(chunks: seq<seq<byte>>, cap: nat): (r: (seq<byte>, seq<seq<byte>>))
    requires chunks != [] && cap > 0
    ensures |r.0| <= cap
    ensures |r.0| == if |chunks[0]| <= cap then |chunks[0]| else cap
    ensures r.0 + Flatten(r.1) == Flatten(chunks)
    ensures Measure(r.1) < Measure(chunks)
  {
    var c := chunks[0];
    if |c| <= cap then
      (c, chunks[1..])
    else
      var rest := [c[cap..]] + chunks[1..];
      assert rest[1..] == chunks[1..];
      assert c[..cap] + c[cap..] == c;
      (c[..cap], rest)
  }

  /** What the connection has emitted so far and how many write calls it has seen. */
  datatype WireLog = WireLog(sent: seq<seq<byte>>, attempts: nat)

  /** The index of the first of n calls, starting at call number start, that fails (n if none does). */
  function FirstFailure(start: nat, n: nat, failing: set<nat>): (k: nat)
    ensures k <= n
    ensures k < n ==> start + k in failing
    ensures forall j :: start <= j < start + k ==> j !in failing
    decreases n
  {
    if n == 0 then 0
    else if start in failing then 0
    else 1 + FirstFailure(start + 1, n - 1, failing)
  }

  /**
   * Writes the chunks one call at a time and stops at the first failing call:
   * exactly the chunks before it are emitted and no later chunk is attempted.
   */
  function Emit(log: WireLog, failing: set<nat>, chunks: seq<seq<byte>>): (r: (WireLog, Option<Error>))
    ensures var k := FirstFailure(log.attempts, |chunks|, failing);
      && r.0.sent == log.sent + chunks[..k]
      && r.0.attempts == log.attempts + (if k < |chunks| then k + 1 else k)
      && r.1 == (if k < |chunks| then Some(WriteRefused) else None)
    decreases |chunks|
  {
    if chunks == [] then
      (log, None)
    else if log.attempts in failing then
      (WireLog(log.sent, log.attempts + 1), Some(WriteRefused))
    else
      var r := Emit(WireLog(log.sent + [chunks[0]], log.attempts + 1), failing, chunks[1..]);
      assert [chunks[0]] + chunks[1..][..FirstFailure(log.attempts + 1, |chunks| - 1, failing)]
          == chunks[..FirstFailure(log.attempts, |chunks|, failing)];
      r
  }

  /** Emitting a chunk and then more is the single call followed, if it succeeded, by the rest. */
  lemma EmitCons(log: WireLog, failing: set<nat>, c: seq<byte>, cs: seq<seq<byte>>)
    ensures var (after, err) := Emit(log, failing, [c]);
      Emit(log, failing, [c] + cs) == if err != None then (after, err) else Emit(after, failing, cs)
  {
    assert ([c] + cs)[0] == c && ([c] + cs)[1..] == cs && [c][1..] == [];
  }

  class Conn {
    var incoming: seq<seq<byte>>
    var sent: seq<seq<byte>>
    var attempts: nat
    const failing: set<nat>

    constructor (incoming: seq<seq<byte>>, failing: set<nat>)
      ensures this.incoming == incoming && this.failing == failing
      ensures sent == [] && attempts == 0
    {
      this.incoming := incoming;
      this.failing := failing;
      sent := [];
      attempts := 0;
    }

    function Log(): WireLog
      reads this
    {
      WireLog(sent, attempts)
    }

    /** conn.Read(buf): the bytes delivered land in buf[..n]; the rest of buf is untouched. */
    method Read(buf: array<byte>) returns (n: nat, err: Option<Error>)
      requires buf.Length > 0
      modifies this, buf
      ensures sent == old(sent) && attempts == old(attempts)
      ensures old(incoming) == [] ==> n == 0 && err == Some(EOF) && incoming == [] && buf[..] == old(buf[..])
      ensures old(incoming) != [] ==>
        var (c, rest) := Take(old(incoming), buf.Length);
        && err == None && n == |c| <= buf.Length && buf[..n] == c && incoming == rest
        && buf[n..] == old(buf[n..])
    {
      if incoming == [] {
        n, err := 0, Some(EOF);
        return;
      }
      var (c, rest) := Take(incoming, buf.Length);
      n, err := |c|, None;
      forall i | 0 <= i < n {
        buf[i] := c[i];
      }
      incoming := rest;
    }

    /** conn.Write(q): the call either emits q whole or fails and emits nothing. */
    method Write(q: seq<byte>) returns (n: nat, err: Option<Error>)
      modifies this
      ensures incoming == old(incoming)
      ensures (Log(), err) == Emit(old(Log()), failing, [q])
      ensures n == if err == None then |q| else 0
    {
      assert [q][..1] == [q] && [q][..0] == [];
      if attempts in failing {
        n, err := 0, Some(WriteRefused);
      } else {
        sent := sent + [q];
        n, err := |q|, None;
      }
      attempts := attempts + 1;
    }
  }
}
