/**
  The frame reader of server/proxy.go as imperative code: a connection that is read a slice at
  a time, a message buffer that grows by appending, and the three reading functions. Each
  method is proved against the matching function of module Ber.
*/
module Framing {
  import opened Ber

  /**
    One direction of a TCP connection: every byte the peer will send, and how many of them have
    been read so far. A read delivers as many of the requested bytes as are left, so a short
    read happens only at the end of the stream.
  */
  class Conn {
    const input: seq<byte>
    var pos: nat
    var closed: bool

    ghost predicate Valid()
      reads this
    {
      pos <= |input|
    }

    /** The bytes the peer has sent that have not been read yet. */
    function Remaining(): (r: seq<byte>)
      reads this
      requires Valid()
      ensures |r| == |input| - pos
    {
      input[pos..]
    }

    constructor (input: seq<byte>)
      ensures Valid() && this.input == input && pos == 0 && !closed
    {
      this.input := input;
      pos := 0;
      closed := false;
    }

    /** conn.Read(p): fills the front of `p` with the next bytes and reports end of stream when
        bytes were asked for and none was left. */
    method Read(p: array<byte>) returns (n: nat, eof: bool)
      requires Valid()
      modifies this, p
      ensures Valid() && closed == old(closed)
      ensures n == Min(p.Length, |old(Remaining())|) && pos == old(pos) + n
      ensures p[..n] == old(Remaining())[..n] && p[n..] == old(p[n..])
      ensures eof <==> n == 0 && p.Length > 0
    {
      n := Min(p.Length, |input| - pos);
      forall i | 0 <= i < n {
        p[i] := input[pos + i];
      }
      pos := pos + n;
      eof := n == 0 && p.Length > 0;
    }

    /** conn.Close(). Nothing reads a connection after closing it, so Read does not consult the flag. */
    method Close()
      modifies this
      ensures closed && pos == old(pos)
    {
      closed := true;
    }
  }

  /** The `[]byte` that readLdapMessageBytes grows through a pointer. */
  class FrameBuffer {
    var bytes: seq<byte>

    constructor ()
      ensures bytes == []
    {
      bytes := [];
    }
  }

  /**
    readBytes (server/proxy.go:187-198): one conn.Read into a fresh zeroed slice of `length`
    bytes, which is appended to the buffer WHOLE: when fewer than `length` bytes arrive the
    source formats an error message, drops it, and appends the zero padding all the same. The
    `else if err != nil { return }` of the source needs a full read that also reports an error,
    which this connection never gives, so it is not written out. The last byte of the buffer is
    returned; the source indexes it unconditionally, hence the precondition.
  */
  method ReadBytes(conn: Conn, buf: FrameBuffer, length: nat) returns (b: byte, eof: bool)
    requires conn.Valid()
    requires length > 0 || |buf.bytes| > 0
    modifies conn, buf
    ensures conn.Valid() && conn.closed == old(conn.closed)
    ensures var k := Min(length, |old(conn.Remaining())|);
      conn.pos == old(conn.pos) + k &&
      buf.bytes == old(buf.bytes) + old(conn.Remaining())[..k] + Zeros(length - k) &&
      (eof <==> k == 0 && length > 0)
    ensures b == buf.bytes[|buf.bytes| - 1]
  {
    var newbytes := new byte[length](_ => 0);
    ghost var zeros := newbytes[..];
    assert zeros == Zeros(length);
    var n, err := conn.Read(newbytes);
    assert newbytes[..] == newbytes[..n] + newbytes[n..];
    assert newbytes[n..] == zeros[n..];
    buf.bytes := buf.bytes + newbytes[..];
    b := buf.bytes[|buf.bytes| - 1];
    eof := err;
  }

  /**
    readTagAndLength (server/proxy.go:204-268): reads the identifier octet and the length, one
    byte at a time, appending each byte to the buffer. A leading byte other than 0x30 is the
    source's panic and is returned as UnexpectedTag. On an end of stream the buffer also holds
    the zero byte that the failed one-byte read appended.
  */
  method ReadTagAndLength(conn: Conn, buf: FrameBuffer) returns (r: Result<TagAndLength>)
    requires conn.Valid()
    modifies conn, buf
    ensures conn.Valid() && conn.closed == old(conn.closed)
    ensures var s := old(conn.Remaining()); var h := ParseHeader(s);
      h.Header? ==>
        r == Ok(h.tl) && conn.pos == old(conn.pos) + h.size && buf.bytes == old(buf.bytes) + s[..h.size]
    ensures var s := old(conn.Remaining()); var h := ParseHeader(s);
      h.HeaderError? ==>
        r == Err(h.error) && conn.pos == old(conn.pos) + h.consumed &&
        buf.bytes == old(buf.bytes) + s[..h.consumed] + (if h.error == Eof then [0] else [])
  {
    ghost var s := conn.Remaining();
    ghost var h := ParseHeader(s);
    ghost var prefix := buf.bytes;
    var b, eof := ReadBytes(conn, buf, 1);
    if eof {
      assert h == HeaderError(Eof, 0) && buf.bytes == prefix + [0];
      return Err(Eof);
    }
    assert s[..1] == [b];
    var ret := Identifier(b, 0);
    if b != SequenceTag {
      assert h == HeaderError(UnexpectedTag(b), 1);
      return Err(UnexpectedTag(b));
    }
    b, eof := ReadBytes(conn, buf, 1);
    if eof {
      assert h == HeaderError(Eof, 1) && buf.bytes == prefix + s[..1] + [0];
      return Err(Eof);
    }
    assert s[..2] == s[..1] + [b];
    if !HighBit(b) {
      // the length is in the bottom seven bits
      ret := ret.(Length := LowBits(b));
      assert h == Header(ret, 2);
    } else {
      // the bottom seven bits count the length octets that follow
      var numBytes := LowBits(b);
      if numBytes == 0 {
        assert h == HeaderError(IndefiniteLength, 2);
        return Err(IndefiniteLength);
      }
      ghost var loop := LongLength(s, 2, numBytes, 0);
      var length := ReadLengthOctets(conn, buf, numBytes, s, prefix);
      if length.Err? {
        assert h == HeaderError(loop.error, loop.consumed);
        return Err(length.error);
      }
      ret := ret.(Length := length.value);
      assert h == Header(ret, loop.end);
    }
    r := Ok(ret);
  }

  /**
    The length loop of readTagAndLength (server/proxy.go:244-264): `numBytes` octets, each
    consumed and appended before the size guard looks at the length accumulated so far. `s` is
    what remained on the connection when the header started; two of its bytes are read.
  */
  method ReadLengthOctets(conn: Conn, buf: FrameBuffer, numBytes: nat,
                          ghost s: seq<byte>, ghost prefix: seq<byte>)
    returns (r: Result<int>)
    requires conn.Valid() && 2 <= |s| && conn.Remaining() == s[2..]
    requires buf.bytes == prefix + s[..2]
    modifies conn, buf
    ensures conn.Valid() && conn.closed == old(conn.closed)
    ensures var loop := LongLength(s, 2, numBytes, 0);
      loop.Decoded? ==>
        r == Ok(loop.value) && conn.pos == old(conn.pos) + loop.end - 2 &&
        buf.bytes == prefix + s[..loop.end]
    ensures var loop := LongLength(s, 2, numBytes, 0);
      loop.Rejected? ==>
        r == Err(loop.error) && conn.pos == old(conn.pos) + loop.consumed - 2 &&
        buf.bytes == prefix + s[..loop.consumed] + (if loop.error == Eof then [0] else [])
  {
    ghost var loop := LongLength(s, 2, numBytes, 0);
    var length := 0;
    var i := 0;
    while i < numBytes
      invariant 0 <= i <= numBytes && 2 + i <= |s|
      invariant conn.Valid() && conn.closed == old(conn.closed)
      invariant conn.Remaining() == s[2 + i..] && conn.pos == old(conn.pos) + i
      invariant buf.bytes == prefix + s[..2 + i]
      invariant loop == LongLength(s, 2 + i, numBytes - i, length)
    {
      var b, eof := ReadBytes(conn, buf, 1);
      if eof {
        return Err(Eof);
      }
      assert s[..2 + i + 1] == s[..2 + i] + [b];
      if length >= ShiftLimit {
        // the source cannot shift the length up without overflowing
        return Err(LengthTooLarge);
      }
      // `<<= 8` then `|= int(b)`: after the shift the low eight bits are zero, so the or adds b
      length := length * 256 + b as int;
      if length == 0 {
        // DER requires lengths to be minimal
        return Err(LeadingZeros);
      }
      i := i + 1;
    }
    r := Ok(length);
  }

  /**
    readLdapMessageBytes (server/proxy.go:173-182): a header into a fresh buffer, then one read of
    Length more bytes whose result the source ignores, so a truncated payload comes back padded
    with zeros (ParseFrame). The buffer is dropped on a header error.
  */
  method ReadLdapMessageBytes(conn: Conn) returns (r: Result<seq<byte>>)
    requires conn.Valid()
    modifies conn
    ensures conn.Valid() && conn.closed == old(conn.closed)
    ensures var f := ParseFrame(old(conn.Remaining()));
      f.Frame? ==> r == Ok(f.bytes) && conn.pos == old(conn.pos) + f.consumed
    ensures var f := ParseFrame(old(conn.Remaining()));
      f.FrameError? ==> r == Err(f.error) && conn.pos == old(conn.pos) + f.consumed
  {
    ghost var s := conn.Remaining();
    var buf := new FrameBuffer();
    var tl := ReadTagAndLength(conn, buf);
    if tl.Err? {
      assert ParseFrame(s) == FrameError(tl.error, ParseHeader(s).consumed);
      return Err(tl.error);
    }
    ghost var size := ParseHeader(s).size;
    FrameOfHeader(s, tl.value, size, Min(tl.value.Length, |s| - size));
    assert conn.Remaining() == s[size..] && buf.bytes == s[..size];
    var last, eof := ReadBytes(conn, buf, tl.value.Length);
    r := Ok(buf.bytes);
  }
}
