/** Protosockets: reading a TCP stream token by token, whatever segments it arrives in. */
module Psock {
  import opened Integers

  // ---------- the tokens of a stream ----------

  datatype Scanned = Scanned(tokens: seq<seq<byte>>, rest: seq<byte>)

  /** The tokens that end with the marker, and what follows the last of them. */
  function Scan(stream: seq<byte>, c: byte): Scanned {
    if stream == [] then Scanned([], [])
    else
      var s, b := Scan(stream[..|stream| - 1], c), stream[|stream| - 1];
      if b == c then Scanned(s.tokens + [s.rest + [b]], []) else Scanned(s.tokens, s.rest + [b])
  }

  function Joined(tokens: seq<seq<byte>>): seq<byte> {
    if tokens == [] then [] else Joined(tokens[..|tokens| - 1]) + tokens[|tokens| - 1]
  }

  /** A token is what comes through the next marker. */
  ghost predicate IsToken(t: seq<byte>, c: byte) {
    t != [] && t[|t| - 1] == c && c !in t[..|t| - 1]
  }

  /** No byte is lost, and every token ends at the first marker in it. */
  lemma {:induction false} ScanIsPartition(stream: seq<byte>, c: byte)
    ensures var s := Scan(stream, c);
      && Joined(s.tokens) + s.rest == stream
      && c !in s.rest
      && forall i :: 0 <= i < |s.tokens| ==> IsToken(s.tokens[i], c)
  {
    if stream != [] {
      var n := |stream| - 1;
      ScanIsPartition(stream[..n], c);
      var s := Scan(stream, c);
      assert stream == stream[..n] + [stream[n]];
      if stream[n] == c {
        assert s.tokens[..|s.tokens| - 1] == Scan(stream[..n], c).tokens;
      }
    }
  }

  /** Bytes without a marker go on with the last token. */
  lemma {:induction false} ScanOn(stream: seq<byte>, x: seq<byte>, c: byte)
    requires c !in x
    ensures Scan(stream + x, c) == Scan(stream, c).(rest := Scan(stream, c).rest + x)
    decreases |x|
  {
    if x == [] {
      assert stream + x == stream;
    } else {
      var n := |x| - 1;
      assert (stream + x)[..|stream + x| - 1] == stream + x[..n];
      ScanOn(stream, x[..n], c);
      assert x == x[..n] + [x[n]];
    }
  }

  /** A marker ends it. */
  lemma ScanThrough(stream: seq<byte>, x: seq<byte>, c: byte)
    requires IsToken(x, c)
    ensures Scan(stream + x, c) == Scanned(Scan(stream, c).tokens + [Scan(stream, c).rest + x], [])
  {
    var n := |x| - 1;
    assert (stream + x)[..|stream + x| - 1] == stream + x[..n];
    ScanOn(stream, x[..n], c);
    assert x == x[..n] + [c];
    assert Scan(stream, c).rest + x[..n] + [c] == Scan(stream, c).rest + x;
    assert (stream + x)[|stream + x| - 1] == c;
  }

  function Min(a: nat, b: nat): nat {
    if a < b then a else b
  }

  /** What a buffer keeps of a token. */
  function Cut(token: seq<byte>, size: nat): seq<byte> {
    token[..Min(size, |token|)]
  }

  function CutAll(tokens: seq<seq<byte>>, size: nat): (r: seq<seq<byte>>)
    ensures |r| == |tokens|
  {
    seq(|tokens|, i requires 0 <= i < |tokens| => Cut(tokens[i], size))
  }

  /** How many bytes are read through the first marker, or all if there is none. */
  function Through(data: seq<byte>, c: byte): (k: nat)
    ensures k <= |data|
    ensures c in data ==> k > 0 && IsToken(data[..k], c)
    ensures c !in data ==> k == |data|
  {
    if data == [] then 0
    else if data[0] == c then 1
    else
      var k := Through(data[1..], c);
      assert c in data[1..] ==> data[..k + 1] == [data[0]] + data[1..][..k];
      k + 1
  }

  lemma ThroughIs(data: seq<byte>, c: byte, k: nat)
    requires k <= |data| && IsToken(data[..k], c)
    ensures Through(data, c) == k && c in data
  {
    assert data[k - 1] == data[..k][k - 1] == c;
    if data[0] != c {
      assert data[..k][1..] == data[1..][..k - 1];
      ThroughIs(data[1..], c, k - 1);
    }
  }

  // ---------- the protosocket ----------

  datatype SocketState = NotReading | Read | BlockedNewdata

  class Socket {
    /** The segment that the stack presents in this invocation. */
    var appdata: seq<byte>
    var readptr: nat
    var readlen: nat

    const buffer: array<byte>
    /** Where the next byte goes in the buffer, and how much room is left. */
    var ptr: nat
    var left: nat

    var state: SocketState
    /** The thread waits inside `psock_readto`. */
    var waiting: bool
    /** What was consumed of the current token. */
    ghost var token: seq<byte>

    constructor (bufsize: nat)
      ensures Valid() && !waiting && state == NotReading && readlen == 0 && buffer.Length == bufsize
      ensures fresh(buffer)
    {
      buffer := new byte[bufsize];
      appdata, readptr, readlen, ptr, left := [], 0, 0, 0, bufsize;
      state, waiting, token := NotReading, false, [];
    }

    ghost predicate Valid()
      reads this, buffer
    {
      && readptr + readlen <= |appdata|
      && (waiting ==> readlen == 0 && Holds())
    }

    /** The buffer holds the token as far as it fits. */
    ghost predicate Holds()
      reads this`ptr, this`left, this`token, buffer
    {
      && ptr + left == buffer.Length && ptr <= |token| && (left > 0 ==> ptr == |token|)
      && buffer[..ptr] == token[..ptr]
    }

    function Unread(): seq<byte>
      reads this`appdata, this`readptr, this`readlen
      requires readptr + readlen <= |appdata|
    {
      appdata[readptr..readptr + readlen]
    }

    /** What can be read in this invocation of the application. */
    function Pending(newdata: bool): seq<byte>
      reads this
      requires readptr + readlen <= |appdata|
    {
      if state == Read then Unread() else if newdata then appdata else []
    }

    /** `psock_datalen` */
    function DataLen(): int
      reads this
    {
      buffer.Length - left
    }

    /** The first `k` of the bytes that were unread are consumed, none of them a marker. */
    ghost predicate Consumed(data: seq<byte>, k: nat, before: seq<byte>, c: byte)
      reads this
    {
      && readptr + readlen <= |appdata| && k <= |data| && Unread() == data[k..]
      && token == before + data[..k] && c !in data[..k]
    }

    /** Take one byte, and store it if there is room. */
    method TakeByte(c: byte, ghost data: seq<byte>, ghost k: nat, ghost before: seq<byte>) returns (b: byte)
      requires Consumed(data, k, before, c) && Holds() && readlen > 0
      modifies this`readptr, this`readlen, this`ptr, this`left, this`token, buffer
      ensures k < |data| && b == data[k] && Holds() && readptr + readlen <= |appdata|
      ensures Unread() == data[k + 1..] && token == before + data[..k + 1]
      ensures b != c ==> Consumed(data, k + 1, before, c)
      ensures left == if old(left) > 0 then old(left) - 1 else 0
      ensures readlen == old(readlen) - 1
    {
      b := appdata[readptr];
      assert b == data[k] && data[..k + 1] == data[..k] + [b];
      if left > 0 {
        buffer[ptr] := b;
        ptr := ptr + 1;
        left := left - 1;
      }
      token := token + [b];
      readptr := readptr + 1;
      readlen := readlen - 1;
      assert Unread() == data[k + 1..];
    }

    /** `buf_bufto`: consume through the marker, and store what there is room for. */
    method BufTo(c: byte) returns (found: bool, full: bool)
      requires readptr + readlen <= |appdata| && Holds()
      modifies this`readptr, this`readlen, this`ptr, this`left, this`token, buffer
      ensures readptr + readlen <= |appdata| && Holds()
      ensures found <==> c in old(Unread())
      ensures token == old(token) + old(Unread())[..Through(old(Unread()), c)]
      ensures Unread() == old(Unread())[Through(old(Unread()), c)..]
      ensures full ==> left == 0
    {
      hide Holds, Through;
      ghost var data, before, k: nat := Unread(), token, 0;
      while left > 0 && readlen > 0
        invariant Consumed(data, k, before, c) && Holds()
        decreases readlen
      {
        var b := TakeByte(c, data, k, before);
        k := k + 1;
        if b == c {
          ThroughIs(data, c, k);
          return true, false;
        }
      }
      if readlen == 0 {
        assert data[..k] == data;
        return false, false;
      }
      while readlen > 0
        invariant Consumed(data, k, before, c) && Holds() && left == 0
        decreases readlen
      {
        var b := TakeByte(c, data, k, before);
        k := k + 1;
        if b == c {
          ThroughIs(data, c, k);
          return true, true;
        }
      }
      assert data[..k] == data;
      return false, true;
    }

    /** `psock_newdata` */
    method NewData(newdata: bool) returns (more: bool)
      modifies this`state
      ensures more <==> readlen > 0 || (old(state) != Read && newdata)
      ensures state == if readlen == 0 && old(state) == Read then BlockedNewdata else old(state)
    {
      if readlen > 0 {
        return true;
      } else if state == Read {
        state := BlockedNewdata;
        return false;
      } else if newdata {
        return true;
      }
      return false;
    }

    /** In `psock_readto`: nothing was consumed yet, or everything without finding a marker. */
    ghost predicate Reading(data: seq<byte>, start: seq<byte>, newdata: bool, nothing: bool, c: byte)
      reads this, buffer
    {
      && readptr + readlen <= |appdata| && Holds() && (readlen > 0 ==> state == Read)
      && (nothing ==> token == start && Pending(newdata) == data)
      && (!nothing ==> token == start + data && c !in data && readlen == 0 && state == Read)
    }

    /** Wait for data if there are none left, unless there are in this invocation. */
    method Refill(newdata: bool, ghost data: seq<byte>, ghost start: seq<byte>, ghost nothing: bool, c: byte) returns (more: bool)
      requires Reading(data, start, newdata, nothing, c)
      modifies this`state, this`readptr, this`readlen
      ensures readptr + readlen <= |appdata| && Holds()
      ensures more ==> nothing && token == start && Unread() == data && state == Read
      ensures !more ==> token == start + data && c !in data && readlen == 0 && state != Read
    {
      if readlen == 0 {
        more := NewData(newdata);
        if !more {
          assert nothing ==> data == [] && start + data == start;
          return;
        }
        state := Read;
        readptr := 0;
        readlen := |appdata|;
      }
      more := true;
    }

    /** Of the pending data, everything through the marker has gone to the token. */
    ghost predicate Took(data: seq<byte>, start: seq<byte>, c: byte)
      reads this`readptr, this`readlen, this`appdata, this`ptr, this`left, this`token, buffer
    {
      && readptr + readlen <= |appdata| && Holds()
      && token == start + data[..Through(data, c)] && Unread() == data[Through(data, c)..]
    }

    /** The loop of `psock_readto`: read until a marker is found, or wait for more data. */
    method ReadUntil(c: byte, newdata: bool, ghost data: seq<byte>) returns (found: bool)
      requires Reading(data, token, newdata, true, c)
      modifies this, buffer
      ensures appdata == old(appdata) && Took(data, old(token), c) && (found <==> c in data)
      ensures found ==> !waiting && state == Read && (DataLen() == 0 <==> buffer.Length == 0)
      ensures !found ==> waiting && readlen == 0 && state != Read
    {
      hide Through, Reading;
      ghost var start, nothing := token, true;
      while true
        invariant Reading(data, start, newdata, nothing, c) && appdata == old(appdata)
        decreases nothing
      {
        var more := Refill(newdata, data, start, nothing, c);
        if !more {
          waiting := true;
          NothingFound(data, c);
          return false;
        }
        var full;
        found, full := BufTo(c);
        if found {
          SomeStored();
          waiting := false;
          return;
        }
        NothingFound(data, c);
        GoOnReading(data, start, newdata, c);
        nothing := false;
      }
    }

    /** `psock_readto`, from where it waits or from its beginning, until it waits or ends. */
    method ReadTo(c: byte, newdata: bool) returns (ended: bool)
      requires Valid() && (readlen > 0 ==> state == Read)
      modifies this, buffer
      ensures Valid() && appdata == old(appdata)
      ensures ended <==> buffer.Length > 0 && c in old(Pending(newdata))
      ensures Took(old(Pending(newdata)), if old(waiting) then old(token) else [], c)
      ensures ended ==> !waiting && Holds() && state == Read
      ensures !ended && buffer.Length > 0 ==> waiting && readlen == 0 && state != Read
    {
      hide Through, Reading;
      ghost var data := Pending(newdata);
      if !waiting {
        ptr, left, token := 0, buffer.Length, [];
      }
      BeginReading(data, token, newdata, c);
      var found := ReadUntil(c, newdata, data);
      if !found {
        return false;
      }
      if DataLen() == 0 {
        state := NotReading;
        return false;
      }
      return true;
    }

    lemma SomeStored()
      requires Holds() && token != []
      ensures DataLen() == 0 <==> buffer.Length == 0
    {
    }

    lemma BeginReading(data: seq<byte>, start: seq<byte>, newdata: bool, c: byte)
      requires readptr + readlen <= |appdata| && Holds() && token == start && Pending(newdata) == data
      requires readlen > 0 ==> state == Read
      ensures Reading(data, start, newdata, true, c)
    {
    }

    lemma GoOnReading(data: seq<byte>, start: seq<byte>, newdata: bool, c: byte)
      requires readptr + readlen <= |appdata| && Holds() && token == start + data && c !in data && Unread() == []
      requires state == Read
      ensures Reading(data, start, newdata, false, c)
    {
    }
  }

  lemma NothingFound(data: seq<byte>, c: byte)
    requires c !in data
    ensures Through(data, c) == |data| && data[..|data|] == data && data[|data|..] == []
  {
  }

  // ---------- an application that reads lines back to back ----------

  class Application {
    const socket: Socket
    const marker: byte
    /** What the buffer held whenever a read ended. */
    var lines: seq<seq<byte>>
    /** All the bytes that arrived. */
    ghost var stream: seq<byte>

    constructor (bufsize: nat, marker: byte)
      requires bufsize > 0
      ensures Valid() && stream == [] && this.marker == marker && socket.buffer.Length == bufsize
      ensures fresh(socket) && fresh(socket.buffer)
    {
      socket := new Socket(bufsize);
      this.marker := marker;
      lines, stream := [], [];
    }

    /** Between two invocations: the lines are the tokens of the stream so far, cut to the
        size of the buffer, and the socket has taken the bytes after the last of them. */
    ghost predicate Valid()
      reads this, socket, socket.buffer
    {
      && socket.Valid() && socket.buffer.Length > 0 && socket.readlen == 0 && socket.state != Read
      && HasRead(stream)
    }

    ghost predicate HasRead(s: seq<byte>)
      reads this, socket
    {
      && Scan(s, marker).rest == (if socket.waiting then socket.token else [])
      && lines == CutAll(Scan(s, marker).tokens, socket.buffer.Length)
    }

    /** During an invocation: `s` is read, and the rest of the stream is pending. */
    ghost predicate Between(s: seq<byte>, newdata: bool)
      reads this, socket, socket.buffer
    {
      && socket.Valid() && socket.buffer.Length > 0 && (socket.readlen > 0 ==> socket.state == Read)
      && HasRead(s) && stream == s + socket.Pending(newdata)
    }

    /** Read one more line, if there is one. */
    method ReadLine(newdata: bool, ghost s: seq<byte>) returns (ended: bool, ghost s': seq<byte>)
      requires Between(s, newdata)
      modifies this`lines, socket, socket.buffer
      ensures ended ==> Between(s', newdata) && |socket.Pending(newdata)| < |old(socket.Pending(newdata))|
      ensures !ended ==> Valid()
    {
      hide Scan, Through, CutAll, Socket.Took;
      ghost var data, start := socket.Pending(newdata), if socket.waiting then socket.token else [];
      ended := socket.ReadTo(marker, newdata);
      TookMeans(socket, data, start, marker);
      ghost var k := Through(data, marker);
      s' := s + data[..k];
      assert s + data == s' + data[k..];
      if ended {
        ScanThrough(s, data[..k], marker);
        lines := lines + [socket.buffer[..socket.DataLen()]];
        CutOneMore(Scan(s, marker).tokens, socket.token, socket.buffer.Length);
      } else {
        NothingFound(data, marker);
        ScanOn(s, data, marker);
      }
    }

    /** One invocation by the stack, with a new segment or without: read line after line
        until the socket waits. */
    method Invoke(segment: seq<byte>, newdata: bool)
      requires Valid()
      modifies this`lines, this`stream, socket, socket.buffer
      ensures Valid() && stream == old(stream) + if newdata then segment else []
    {
      hide Scan, CutAll;
      ghost var s := stream;
      socket.appdata := segment;
      socket.readptr := 0;
      stream := stream + if newdata then segment else [];
      var ended := true;
      while ended
        invariant if ended then Between(s, newdata) else Valid()
        invariant stream == old(stream) + if newdata then segment else []
        decreases ended, if ended then |socket.Pending(newdata)| else 0
      {
        ended, s := ReadLine(newdata, s);
      }
    }
  }

  lemma TookMeans(socket: Socket, data: seq<byte>, start: seq<byte>, c: byte)
    requires socket.Took(data, start, c)
    ensures socket.token == start + data[..Through(data, c)] && socket.Unread() == data[Through(data, c)..]
    ensures socket.Holds() && 0 <= socket.DataLen() <= socket.buffer.Length
    ensures socket.buffer[..socket.DataLen()] == Cut(socket.token, socket.buffer.Length)
  {
  }

  lemma CutOneMore(tokens: seq<seq<byte>>, token: seq<byte>, size: nat)
    ensures CutAll(tokens + [token], size) == CutAll(tokens, size) + [Cut(token, size)]
  {
  }

  /** However the bytes of a stream are cut into segments, the application reads the same
      lines: the tokens of the whole. */
  method ReadStream(segments: seq<seq<byte>>, bufsize: nat, marker: byte) returns (lines: seq<seq<byte>>)
    requires bufsize > 0
    ensures lines == CutAll(Scan(Joined(segments), marker).tokens, bufsize)
  {
    hide Scan, CutAll, Cut;
    var app := new Application(bufsize, marker);
    for i := 0 to |segments|
      invariant app.Valid() && app.marker == marker && app.socket.buffer.Length == bufsize && app.stream == Joined(segments[..i])
      invariant fresh(app) && fresh(app.socket) && fresh(app.socket.buffer)
    {
      app.Invoke(segments[i], true);
      assert segments[..i + 1][..i] == segments[..i];
    }
    assert segments[..|segments|] == segments;
    lines := app.lines;
  }
}
