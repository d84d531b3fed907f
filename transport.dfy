/**
 * The Packet struct of packet.go: a connection, the reassembly buffer with
 * its length iol and pending frame length l, the scratch buffer b that each
 * conn.Read fills, and the settings ReadBufferSize, WriteBufferSize and
 * Endian. Every method is proved to do what the matching function of
 * Framing says, so the properties proved there hold for the object.
 */
module Transport {
  import opened Bytes
  import opened Outcomes
  import opened Connection
  import Framing

  /** The buffer size NewConn picks when ReadBufferSize is left at 0. */
  const DefaultReadBufferSize := 1024

  class Packet {
    var conn: Conn?
    var readBufferSize: int
    var ioBuffer: seq<byte>
    var iol: int
    var l: int
    var b: array?<byte>
    var writeBufferSize: int
    var endian: Option<Endian>

    /** A Packet literal: the exported settings as given, no connection, empty reassembly state. */
    constructor (readBufferSize: int, writeBufferSize: int, endian: Option<Endian>)
      ensures this.readBufferSize == readBufferSize && this.writeBufferSize == writeBufferSize
      ensures this.endian == endian
      ensures conn == null && b == null
      ensures State() == Framing.Initial
    {
      this.readBufferSize := readBufferSize;
      this.writeBufferSize := writeBufferSize;
      this.endian := endian;
      conn := null;
      b := null;
      ioBuffer := [];
      iol := 0;
      l := 0;
    }

    /** The reassembly state: buffered bytes, their count, the pending frame length. */
    function State(): Framing.Reader
      reads this
    {
      Framing.Reader(ioBuffer, iol, l)
    }

    /** The byte order in use once NewConn has run. */
    function Order(): Endian
      reads this
    {
      if endian.Some? then endian.value else BigEndian
    }

    /** A Packet after NewConn: connected, byte order and scratch buffer set, iol counting the buffer. */
    ghost predicate Valid()
      reads this
    {
      && conn != null && b != null && endian.Some?
      && b.Length == readBufferSize > 0
      && Framing.Coherent(State())
    }

    /**
     * NewConn: ReadBufferSize 0 becomes 1024, a missing byte order becomes
     * big-endian, a fresh zeroed scratch buffer of ReadBufferSize bytes is
     * allocated, and the reassembly state is kept as it was.
     */
    method NewConn(c: Conn)
      requires readBufferSize >= 0 && Framing.Coherent(State())
      modifies this
      ensures Valid() && conn == c && fresh(b)
      ensures readBufferSize == if old(readBufferSize) == 0 then DefaultReadBufferSize else old(readBufferSize)
      ensures endian == Some(if old(endian).None? then BigEndian else old(endian).value)
      ensures forall i :: 0 <= i < b.Length ==> b[i] == 0
      ensures State() == old(State()) && writeBufferSize == old(writeBufferSize)
    {
      if readBufferSize == 0 {
        readBufferSize := DefaultReadBufferSize;
      }
      if endian.None? {
        endian := Some(BigEndian);
      }
      b := new byte[readBufferSize](_ => 0);
      conn := c;
    }

    /** getPacketLen: the first four buffered bytes, read as an int32, become the pending length. */
    method GetPacketLen()
      requires Valid() && iol >= 4
      modifies this`ioBuffer, this`iol, this`l
      ensures Valid()
      ensures State() == Framing.GetPacketLen(old(State()), Order())
    {
      Bytes.DecodeInt32(ioBuffer[..4], Order());
      l := DecodeInt(ioBuffer[..4], Order());
      ioBuffer := ioBuffer[4..];
      iol := iol - 4;
    }

    /**
     * bRead: returns (dL, d) and updates the state as Framing.BRead says;
     * crashed reports the panic of make([]byte, l) for a negative l, after
     * the prefix has been parsed.
     */
    method BRead() returns (n: int, d: seq<byte>, crashed: bool)
      requires Valid() && iol >= Framing.HeaderLength(State())
      modifies this`ioBuffer, this`iol, this`l
      ensures Valid()
      ensures var r := Framing.BRead(old(State()), Order());
        && crashed == r.Panicked?
        && (r.Extracted? ==> n == r.n && d == r.d && State() == r.st)
        && (r.Panicked? ==> n == 0 && d == [])
        && (r.Panicked? ==>
              State() == if old(l) == 0 then Framing.GetPacketLen(old(State()), Order()) else old(State()))
    {
      if l == 0 {
        GetPacketLen();
      }
      if iol >= l {
        if l < 0 {
          return 0, [], true;
        }
        d := ioBuffer[..l];
        ioBuffer := ioBuffer[l..];
        iol := iol - l;
        l := 0;
        if iol >= 4 {
          GetPacketLen();
        }
        return |d|, d, false;
      }
      return 0, [], false;
    }

    /**
     * Read: loops over bRead and conn.Read until a non-empty frame is
     * extracted or the connection fails. The outcome, the new reassembly
     * state and what is left queued on the connection are those of
     * Framing.ReadLoop; on a connection error the scratch buffer is returned
     * with the error, and a panic becomes Error.Panic.
     */
    method Read() returns (d: seq<byte>, err: Option<Error>)
      requires Valid()
      modifies this`ioBuffer, this`iol, this`l, conn, b
      ensures Valid() && conn == old(conn) && b == old(b)
      ensures conn.sent == old(conn.sent) && conn.attempts == old(conn.attempts)
      ensures var r := Framing.ReadLoop(old(State()), old(conn.incoming), b.Length, Order());
        && (r.Got? ==> d == r.d && err == None && State() == r.st && conn.incoming == r.rest)
        && (r.Failed? ==> d == b[..] && err == Some(r.err) && State() == r.st && conn.incoming == r.rest)
        && (r.Crashed? ==> d == [] && err == Some(Panic))
    {
      var cap, e := b.Length, Order();
      ghost var target := Framing.ReadLoop(State(), conn.incoming, cap, e);
      while true
        invariant Valid() && conn == old(conn) && b == old(b) && e == Order()
        invariant conn.sent == old(conn.sent) && conn.attempts == old(conn.attempts)
        invariant Framing.ReadLoop(State(), conn.incoming, cap, e) == target
        decreases Measure(conn.incoming)
      {
        if l != 0 && iol >= l {
          var dl, data, crashed := BRead();
          if crashed {
            return [], Some(Panic);
          }
          if dl > 0 {
            return data, None;
          }
        }
        var got, cerr := conn.Read(b);
        if cerr != None {
          return b[..], cerr;
        }
        ioBuffer := ioBuffer + b[..got];
        iol := iol + got;
        ghost var grown := State();
        Framing.ArrivedUnfolds(grown, conn.incoming, cap, e);
        if iol > 4 {
          var dl, data, crashed := BRead();
          if crashed {
            return [], Some(Panic);
          }
          if dl > 0 {
            return data, None;
          }
        }
      }
    }

    /**
     * bWrite: hands buf to conn.Write in pieces of WriteBufferSize bytes, the
     * last one shorter, and stops at the first error with (0, err); after the
     * last piece it returns (total, nil).
     */
    method BWrite(buf: seq<byte>, total: int) returns (n: int, err: Option<Error>)
      requires Valid() && writeBufferSize > 0
      modifies conn
      ensures conn.incoming == old(conn.incoming)
      ensures (conn.Log(), err) == Emit(old(conn.Log()), conn.failing, Framing.Chunks(buf, writeBufferSize))
      ensures n == if err == None then total else 0
    {
      var size := writeBufferSize;
      ghost var target := Emit(conn.Log(), conn.failing, Framing.Chunks(buf, size));
      var rest := buf;
      while true
        invariant conn.incoming == old(conn.incoming)
        invariant Emit(conn.Log(), conn.failing, Framing.Chunks(rest, size)) == target
        decreases |rest|
      {
        var k := if |rest| <= size then |rest| else size;
        var q := rest[..k];
        if |rest| > size {
          assert Framing.Chunks(rest, size) == [q] + Framing.Chunks(rest[k..], size);
        } else {
          assert Framing.Chunks(rest, size) == [q] + [];
        }
        EmitCons(conn.Log(), conn.failing, q, Framing.Chunks(rest[k..], size));
        EmitCons(conn.Log(), conn.failing, q, []);
        rest := rest[k..];
        var _, werr := conn.Write(q);
        if werr != None {
          return 0, werr;
        }
        if |rest| <= 0 {
          break;
        }
      }
      return total, None;
    }

    /**
     * Write: frames data with its int32 length in the Packet's byte order
     * and writes it in one conn.Write when WriteBufferSize is 0, through
     * bWrite otherwise; the connection's log, the count and the error are
     * Framing.WriteEffect's.
     */
    method Write(data: seq<byte>) returns (n: int, err: Option<Error>)
      requires Valid() && writeBufferSize >= 0
      modifies conn
      ensures conn.incoming == old(conn.incoming)
      ensures (conn.Log(), n, err) == Framing.WriteEffect(old(conn.Log()), conn.failing, data, writeBufferSize, Order())
    {
      var buf := Framing.Frame(data, Order());
      if writeBufferSize == 0 {
        var sent;
        sent, err := conn.Write(buf);
        n := sent;
      } else {
        n, err := BWrite(buf, |data| + 4);
      }
    }
  }
}
