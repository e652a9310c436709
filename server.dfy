/**
  The proxy's reader loops, readClient and readServer (server/proxy.go:71-112), as methods of a
  class whose channels are the sequences of messages sent on them so far. Each loop is proved
  against SplitFrames of module Stream.
*/
module Server {
  import opened Ber
  import opened Framing
  import opened Stream

  /** The direction tags readClient and readServer put on their messages. */
  const ClientSource: string := "CLIENT"
  const ServerSource: string := "SERVER"

  /** One proxied connection pair (server/proxy.go:15-22); each channel is the sequence of
      messages it has carried so far. */
  class Proxy {
    const name: string
    const clientConn: Conn
    const serverConn: Conn
    var dumpChan: seq<Message>
    var clientChan: seq<Message>
    var serverChan: seq<Message>

    /** The proxy as Forward builds it and start() gives it its three channels. */
    constructor (name: string, clientConn: Conn, serverConn: Conn)
      ensures this.name == name && this.clientConn == clientConn && this.serverConn == serverConn
      ensures dumpChan == [] && clientChan == [] && serverChan == []
    {
      this.name := name;
      this.clientConn := clientConn;
      this.serverConn := serverConn;
      dumpChan, clientChan, serverChan := [], [], [];
    }

    /**
      readClient (server/proxy.go:71-88): the counter starts at 1 and is incremented before
      each message, so client messages are numbered 2, 3, ...; each is sent to the dump channel
      and to the server channel. Any read error closes the client connection and ends the
      loop, except the leading-byte panic, which ends it without closing anything.
    */
    method ReadClient() returns (stop: ReadError)
      requires clientConn.Valid()
      modifies this`dumpChan, this`serverChan, clientConn
      ensures clientConn.Valid()
      ensures var split := SplitFrames(old(clientConn.Remaining()));
        stop == split.stop && clientConn.pos == old(clientConn.pos) + split.consumed &&
        serverChan == old(serverChan) + Numbered(2, ClientSource, split.frames) &&
        dumpChan == old(dumpChan) + Numbered(2, ClientSource, split.frames)
      ensures clientConn.closed == (old(clientConn.closed) || !stop.UnexpectedTag?)
    {
      ghost var s := clientConn.Remaining();
      ghost var frames, cuts := Offsets(s);
      ghost var w := Numbered(2, ClientSource, frames);
      ghost var k: nat := 0;
      var messageid := 1;
      while true
        invariant clientConn.Valid() && clientConn.closed == old(clientConn.closed)
        invariant k <= |frames| && cuts[k] <= |s| && clientConn.Remaining() == s[cuts[k]..]
        invariant clientConn.pos == old(clientConn.pos) + cuts[k]
        invariant messageid == 1 + k
        invariant serverChan == old(serverChan) + w[..k] && dumpChan == old(dumpChan) + w[..k]
        decreases |s| - cuts[k]
      {
        if k < |frames| {
          assert ReadAt(s, frames, cuts, k);
        } else {
          assert EndsAt(s, frames, cuts, k);
        }
        var bytes := ReadLdapMessageBytes(clientConn);
        if bytes.Err? {
          assert w[..k] == w;
          if !bytes.error.UnexpectedTag? {
            clientConn.Close();
          }
          return bytes.error;
        }
        NumberedAt(2, ClientSource, frames, k);
        messageid := messageid + 1;
        var message := Message(messageid, ClientSource, bytes.value);
        dumpChan := dumpChan + [message];
        serverChan := serverChan + [message];
        assert w[..k + 1] == w[..k] + [w[k]];
        k := k + 1;
      }
    }

    /**
      readServer (server/proxy.go:96-112): the same loop on the server connection, with the
      counter starting at 0, so server messages are numbered 1, 2, ...; each is sent to the
      dump channel and to the client channel.
    */
    method ReadServer() returns (stop: ReadError)
      requires serverConn.Valid()
      modifies this`dumpChan, this`clientChan, serverConn
      ensures serverConn.Valid()
      ensures var split := SplitFrames(old(serverConn.Remaining()));
        stop == split.stop && serverConn.pos == old(serverConn.pos) + split.consumed &&
        clientChan == old(clientChan) + Numbered(1, ServerSource, split.frames) &&
        dumpChan == old(dumpChan) + Numbered(1, ServerSource, split.frames)
      ensures serverConn.closed == (old(serverConn.closed) || !stop.UnexpectedTag?)
    {
      ghost var s := serverConn.Remaining();
      ghost var frames, cuts := Offsets(s);
      ghost var w := Numbered(1, ServerSource, frames);
      ghost var k: nat := 0;
      var messageid := 0;
      while true
        invariant serverConn.Valid() && serverConn.closed == old(serverConn.closed)
        invariant k <= |frames| && cuts[k] <= |s| && serverConn.Remaining() == s[cuts[k]..]
        invariant serverConn.pos == old(serverConn.pos) + cuts[k]
        invariant messageid == k
        invariant clientChan == old(clientChan) + w[..k] && dumpChan == old(dumpChan) + w[..k]
        decreases |s| - cuts[k]
      {
        if k < |frames| {
          assert ReadAt(s, frames, cuts, k);
        } else {
          assert EndsAt(s, frames, cuts, k);
        }
        var bytes := ReadLdapMessageBytes(serverConn);
        if bytes.Err? {
          assert w[..k] == w;
          if !bytes.error.UnexpectedTag? {
            serverConn.Close();
          }
          return bytes.error;
        }
        NumberedAt(1, ServerSource, frames, k);
        messageid := messageid + 1;
        var message := Message(messageid, ServerSource, bytes.value);
        dumpChan := dumpChan + [message];
        clientChan := clientChan + [message];
        assert w[..k + 1] == w[..k] + [w[k]];
        k := k + 1;
      }
    }
  }
}
