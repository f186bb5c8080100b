/**
  A connection that carries application data inside DATA frames. `Read` hides the framing: heartbeats
  and unknown frames vanish, data arrives in order, in whatever pieces the caller's buffers allow.

  Payloads are read into pooled buffers. Handing a buffer back gives up its contents: another reader
  may take it and overwrite it at any time, so nothing is promised about a buffer once it is returned.
 */
module FramedConn {
  import opened Bytes
  import opened Frames

  // ---------------------------------------------------------------- what a stream means

  function DataOf(frames: seq<Frame>): seq<byte> {
    if frames == [] then []
    else (if frames[0].kind == DATA then frames[0].payload else []) + DataOf(frames[1..])
  }

  /** The application bytes of a stream. */
  function AppData(input: seq<byte>): seq<byte> {
    DataOf(DecodeAll(input))
  }

  /** Whatever other frames the writers mix in, the application bytes are the DATA payloads in order. */
  lemma AppDataOfFrames(frames: seq<Frame>, tail: seq<byte>)
    requires AllFit(frames) && Decode(tail).Incomplete?
    ensures AppData(EncodeAll(frames) + tail) == DataOf(frames)
  {
    DecodeAllInverts(frames, tail);
  }

  lemma AppDataStep(input: seq<byte>)
    ensures match Decode(input)
            case Incomplete => AppData(input) == []
            case Decoded(f, rest) => AppData(input) == (if f.kind == DATA then f.payload else []) + AppData(rest)
  {
    match Decode(input)
    case Incomplete =>
    case Decoded(f, rest) => assert ([f] + DecodeAll(rest))[1..] == DecodeAll(rest);
  }

  lemma {:induction false} DataOfAppend(xs: seq<Frame>, ys: seq<Frame>)
    ensures DataOf(xs + ys) == DataOf(xs) + DataOf(ys)
    decreases |xs|
  {
    if xs == [] {
      assert xs + ys == ys;
    } else {
      assert (xs + ys)[1..] == xs[1..] + ys;
      DataOfAppend(xs[1..], ys);
    }
  }

  /** On a stream cut at any byte, what can be read is a prefix of what was written. */
  lemma CutDataIsPrefix(frames: seq<Frame>, k: nat)
    requires AllFit(frames) && k <= |EncodeAll(frames)|
    ensures AppData(EncodeAll(frames)[..k]) <= DataOf(frames)
  {
    CutGivesPrefix(frames, k);
    var got := DecodeAll(EncodeAll(frames)[..k]);
    assert frames == got + frames[|got|..];
    DataOfAppend(got, frames[|got|..]);
  }

  // ---------------------------------------------------------------- wire, pool and buffer

  /** The two directions of the underlying connection: bytes still to be read and bytes written. */
  class Wire {
    var input: seq<byte>
    var output: seq<byte>

    constructor (input: seq<byte>)
      ensures this.input == input && output == []
    {
      this.input, output := input, [];
    }
  }

  class BufferPool {
    var free: set<array<byte>>

    constructor ()
      ensures free == {}
    {
      free := {};
    }

    /** A buffer of full length with unknown contents, from the pool or new. */
    method Get() returns (buf: array<byte>)
      requires forall b :: b in free ==> b.Length == MAX_PAYLOAD
      modifies this
      ensures buf.Length == MAX_PAYLOAD && free == old(free) - {buf}
      ensures buf in old(free) || fresh(buf)
    {
      if free != {} {
        buf :| buf in free;
        free := free - {buf};
      } else {
        buf := new byte[MAX_PAYLOAD];
      }
    }

    /** Hands a payload's buffer back; an empty payload has none. From here on the contents are anybody's. */
    method ReturnBuffer(buf: array<byte>, length: nat)
      requires buf.Length == MAX_PAYLOAD
      modifies this, buf
      ensures free == if length == 0 then old(free) else old(free) + {buf}
    {
      if length == 0 { return; }
      free := free + {buf};
    }
  }

  /** The read cache: what has been received and not yet handed to the reader. */
  class BytesBuffer {
    var buf: seq<byte>
    var pos: nat

    constructor ()
      ensures Valid() && Pending() == []
    {
      buf, pos := [], 0;
    }

    ghost predicate Valid()
      reads this
    {
      pos <= |buf|
    }

    ghost function Pending(): seq<byte>
      requires Valid()
      reads this
    {
      buf[pos..]
    }

    method Write(p: seq<byte>)
      requires Valid()
      modifies this
      ensures Valid() && Pending() == old(Pending()) + p
    {
      buf := buf + p;
    }

    /** Copies as much as fits and forgets it; 0 when there is nothing. */
    method Read(p: array<byte>) returns (n: nat)
      requires Valid()
      modifies this, p
      ensures Valid()
      ensures n == if |old(Pending())| < p.Length then |old(Pending())| else p.Length
      ensures p[..n] == old(Pending())[..n] && p[n..] == old(p[n..])
      ensures Pending() == old(Pending())[n..]
    {
      if pos >= |buf| { return 0; }
      n := if |buf| - pos < p.Length then |buf| - pos else p.Length;
      forall i | 0 <= i < n { p[i] := buf[pos + i]; }
      pos := pos + n;
      if pos >= |buf| {
        buf := [];
        pos := 0;
      }
    }
  }

  // ---------------------------------------------------------------- frames on the wire

  /** The payload a read left in `buf[..length]`; an empty one has no buffer. */
  ghost function PayloadIn(buf: array?<byte>, length: nat): seq<byte>
    requires length == 0 || (buf != null && length <= buf.Length)
    reads buf
  {
    if length == 0 then [] else buf[..length]
  }

  /** Reads one frame, its payload into a pooled buffer. A stream that ends inside a frame is an error,
      what was there of the frame is gone, and the buffer goes back. */
  method ReadFrame(w: Wire, pool: BufferPool) returns (ok: bool, kind: byte, buf: array?<byte>, length: nat)
    requires forall b :: b in pool.free ==> b.Length == MAX_PAYLOAD
    modifies w`input, pool, pool.free
    ensures forall b :: b in pool.free ==> b.Length == MAX_PAYLOAD && (b in old(pool.free) || fresh(b))
    ensures buf != null ==> buf.Length == MAX_PAYLOAD && buf !in pool.free && (buf in old(pool.free) || fresh(buf))
    ensures !ok ==> Decode(old(w.input)).Incomplete? && w.input == []
    ensures ok ==> (length == 0 || buf != null) && length <= MAX_PAYLOAD
    ensures ok ==> Decode(old(w.input)) == Decoded(Frame(kind, PayloadIn(buf, length)), w.input)
  {
    ghost var input := w.input;
    kind, buf, length := 0, null, 0;
    if |w.input| < HEADER_SIZE {
      w.input := [];
      return false, kind, null, length;
    }
    var header := w.input[..HEADER_SIZE];
    w.input := w.input[HEADER_SIZE..];
    kind, length := header[0], Be16(header[1], header[2]);
    if length == 0 { return true, kind, null, 0; }
    var got := pool.Get();
    if |w.input| < length {
      w.input := [];
      pool.ReturnBuffer(got, length);
      return false, kind, null, length;
    }
    forall i | 0 <= i < length { got[i] := w.input[i]; }
    assert got[..length] == w.input[..length] == input[3..3 + length];
    w.input := w.input[length..];
    return true, kind, got, length;
  }

  /** Header and payload, or nothing at all when the payload is too large. */
  method WriteFrame(w: Wire, kind: byte, payload: seq<byte>) returns (ok: bool)
    modifies w`output
    ensures ok == Fits(Frame(kind, payload))
    ensures w.output == if ok then old(w.output) + Encode(Frame(kind, payload)) else old(w.output)
  {
    if |payload| > MAX_PAYLOAD { return false; }
    w.output := w.output + ([kind] + Be16Bytes(|payload|));
    if |payload| > 0 { w.output := w.output + payload; }
    assert w.output == old(w.output) + Encode(Frame(kind, payload));
    return true;
  }

  lemma Associative(a: seq<byte>, b: seq<byte>, c: seq<byte>)
    ensures (a + b) + c == a + (b + c)
  {
  }

  // ---------------------------------------------------------------- the connection

  class ReverseFramedConn {
    const conn: Wire
    const readBuf: BytesBuffer
    const pool: BufferPool

    constructor (conn: Wire, pool: BufferPool)
      ensures this.conn == conn && this.pool == pool && fresh(readBuf)
      ensures readBuf.Valid() && Remaining() == AppData(conn.input)
    {
      this.conn, this.pool := conn, pool;
      readBuf := new BytesBuffer();
    }

    /** What the reader has still coming. */
    ghost function Remaining(): seq<byte>
      requires readBuf.Valid()
      reads conn, readBuf
    {
      readBuf.Pending() + AppData(conn.input)
    }

    ghost predicate PoolOk()
      reads pool
    {
      forall b :: b in pool.free ==> b.Length == MAX_PAYLOAD
    }

    /** Up to a buffer-full of the next application bytes; an error only when none are left on the wire, and
        for a buffer that is not empty when none are left at all. With an empty buffer nothing is lost: what
        was on the wire waits in the read cache. */
    method Read(b: array<byte>) returns (n: nat, ok: bool)
      requires readBuf.Valid() && PoolOk() && b !in pool.free
      modifies conn`input, readBuf, pool, pool.free, b
      ensures readBuf.Valid() && PoolOk() && b !in pool.free
      ensures forall x :: x in pool.free ==> x in old(pool.free) || fresh(x)
      ensures ok ==> 0 < n <= b.Length && n <= |old(Remaining())|
      ensures ok ==> b[..n] == old(Remaining())[..n] && Remaining() == old(Remaining())[n..]
      ensures !ok ==> n == 0 && Remaining() == old(Remaining()) && AppData(conn.input) == []
      ensures !ok && b.Length > 0 ==> Remaining() == []
    {
      ghost var all := Remaining();
      while true
        invariant readBuf.Valid() && PoolOk() && b !in pool.free
        invariant forall x :: x in pool.free ==> x in old(pool.free) || fresh(x)
        invariant Remaining() == all
        decreases |conn.input|
      {
        ghost var pending, input := readBuf.Pending(), conn.input;
        n := readBuf.Read(b);
        assert n == 0 ==> readBuf.Pending() == pending;
        if n > 0 {
          assert all[..n] == pending[..n] && all[n..] == pending[n..] + AppData(input);
          return n, true;
        }
        ok := ReceiveFrame();
        if !ok { return 0, false; }
      }
    }

    /** One frame off the wire: data goes to the read cache, everything else is dropped. */
    method ReceiveFrame() returns (ok: bool)
      requires readBuf.Valid() && PoolOk()
      modifies conn`input, readBuf, pool, pool.free
      ensures readBuf.Valid() && PoolOk() && Remaining() == old(Remaining())
      ensures forall x :: x in pool.free ==> x in old(pool.free) || fresh(x)
      ensures ok ==> |conn.input| < |old(conn.input)|
      ensures !ok ==> AppData(conn.input) == [] && readBuf.Pending() == old(readBuf.Pending())
    {
      ghost var pending := readBuf.Pending();
      AppDataStep(conn.input);
      var kind, buf, length;
      ok, kind, buf, length := ReadFrame(conn, pool);
      if !ok { return; }
      ghost var data, rest := if kind == DATA then PayloadIn(buf, length) else [], AppData(conn.input);
      assert AppData(old(conn.input)) == data + rest;
      if kind == DATA && length > 0 {
        readBuf.Write(buf[..length]);
      } else {
        assert pending + data == pending;
      }
      assert readBuf.Pending() == pending + data && Remaining() == (pending + data) + rest;
      Associative(pending, data, rest);
      if buf != null { pool.ReturnBuffer(buf, length); }
    }

    /** Puts bytes in front of what is still on the wire. */
    method Inject(data: seq<byte>)
      requires readBuf.Valid()
      modifies readBuf
      ensures readBuf.Valid() && Remaining() == old(readBuf.Pending()) + data + AppData(conn.input)
    {
      readBuf.Write(data);
    }

    /** One DATA frame, or an error and nothing written. */
    method Write(b: seq<byte>) returns (n: nat, ok: bool)
      modifies conn`output
      ensures ok == (|b| <= MAX_PAYLOAD) && n == if ok then |b| else 0
      ensures conn.output == if ok then old(conn.output) + Encode(Frame(DATA, b)) else old(conn.output)
    {
      ok := WriteFrame(conn, DATA, b);
      n := if ok then |b| else 0;
    }

    /** One read into a new buffer of the given size. */
    method ReadChunk(size: nat) returns (chunk: seq<byte>, ok: bool)
      requires size > 0 && readBuf.Valid() && PoolOk()
      modifies conn`input, readBuf, pool, pool.free
      ensures readBuf.Valid() && PoolOk() && chunk + Remaining() == old(Remaining())
      ensures forall x :: x in pool.free ==> x in old(pool.free) || fresh(x)
      ensures if ok then 0 < |chunk| <= size else chunk == [] && Remaining() == []
    {
      var b := new byte[size];
      var n;
      n, ok := Read(b);
      chunk := b[..n];
    }

    /** Any number of reads with any buffer sizes: what comes out, in order, is what was coming in, and an
        error ends the reading only when everything has been delivered. */
    method ReadMany(sizes: seq<nat>) returns (got: seq<byte>, ended: bool)
      requires readBuf.Valid() && PoolOk() && forall i :: 0 <= i < |sizes| ==> sizes[i] > 0
      modifies conn`input, readBuf, pool, pool.free
      ensures readBuf.Valid() && got + Remaining() == old(Remaining())
      ensures ended ==> got == old(Remaining())
      ensures !ended ==> |got| >= |sizes|
    {
      ghost var all := Remaining();
      got, ended := [], false;
      for i := 0 to |sizes|
        invariant readBuf.Valid() && PoolOk() && got + Remaining() == all && |got| >= i
        invariant forall x :: x in pool.free ==> x in old(pool.free) || fresh(x)
      {
        var chunk, ok := ReadChunk(sizes[i]);
        Associative(got, chunk, Remaining());
        got := got + chunk;
        if !ok {
          assert got + [] == got;
          return got, true;
        }
      }
    }
  }
}
