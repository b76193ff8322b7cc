/** Frames on the serial line: escaped bytes between a start and a stop mark, and a reader
    that takes one byte at a time. */
module Framing {
  import opened Integers

  const SERIAL_BUFFERLEN: nat := 50
  const SERIAL_ESCAPE: byte := 0x5C
  const SERIAL_START_CONTROL: byte := 0x43
  const SERIAL_END: byte := 0x39

  // ---------- the frames ----------

  function Encoded(d: seq<byte>): seq<byte> {
    if d == [] then [] else Encoded(d[..|d| - 1]) + EncodedByte(d[|d| - 1])
  }

  function EncodedByte(c: byte): seq<byte> {
    if c == SERIAL_ESCAPE then [SERIAL_ESCAPE, c] else [c]
  }

  function Frame(d: seq<byte>): seq<byte> {
    [SERIAL_ESCAPE, SERIAL_START_CONTROL] + Encoded(d) + [SERIAL_ESCAPE, SERIAL_END]
  }

  function Frames(payloads: seq<seq<byte>>): seq<byte> {
    if payloads == [] then [] else Frames(payloads[..|payloads| - 1]) + Frame(payloads[|payloads| - 1])
  }

  // ---------- the reader ----------

  datatype Reader = Reader(fill: nat, escaped: bool, buffer: seq<byte>)

  ghost predicate IsReader(r: Reader) {
    |r.buffer| == SERIAL_BUFFERLEN && r.fill < SERIAL_BUFFERLEN
  }

  /** Put a byte into the buffer; the last place takes whatever comes when it is full. */
  function Stored(r: Reader, data: byte): (t: Reader)
    requires IsReader(r)
    ensures IsReader(t)
  {
    Reader(if r.fill + 1 >= SERIAL_BUFFERLEN then SERIAL_BUFFERLEN - 1 else r.fill + 1, false, r.buffer[r.fill := data])
  }

  /** One byte, and the length that is returned. */
  function Step(r: Reader, data: byte): (t: (Reader, nat))
    requires IsReader(r)
    ensures IsReader(t.0) && t.1 <= t.0.fill
  {
    if data == SERIAL_ESCAPE && !r.escaped then (r.(escaped := true), 0)
    else if data != SERIAL_ESCAPE && r.escaped && data == SERIAL_START_CONTROL then (r.(escaped := false, fill := 0), 0)
    else if data != SERIAL_ESCAPE && r.escaped && data == SERIAL_END then (r.(escaped := false), r.fill)
    else (Stored(r, data), 0)
  }

  datatype Fed = Fed(reader: Reader, lines: seq<seq<byte>>)

  /** Byte after byte: the reader in the end, and what the buffer held whenever a length other
      than 0 was returned. */
  function Feed(r: Reader, bytes: seq<byte>): (f: Fed)
    requires IsReader(r)
    ensures IsReader(f.reader)
  {
    if bytes == [] then Fed(r, [])
    else
      var f := Feed(r, bytes[..|bytes| - 1]);
      var (t, n) := Step(f.reader, bytes[|bytes| - 1]);
      Fed(t, if n == 0 then f.lines else f.lines + [t.buffer[..n]])
  }

  lemma {:induction false} FeedOn(r: Reader, s: seq<byte>, t: seq<byte>)
    requires IsReader(r)
    ensures Feed(r, s + t) == Fed(Feed(Feed(r, s).reader, t).reader, Feed(r, s).lines + Feed(Feed(r, s).reader, t).lines)
    decreases |t|
  {
    hide Step;
    if t == [] {
      assert s + t == s;
    } else {
      var n := |t| - 1;
      FeedOn(r, s, t[..n]);
      assert (s + t)[..|s + t| - 1] == s + t[..n];
    }
  }

  // ---------- decoding undoes encoding ----------

  const LINE_LENGTH: nat := SERIAL_BUFFERLEN - 1

  /** What fits of a payload. */
  function Cut(d: seq<byte>): (c: seq<byte>)
    ensures |c| <= LINE_LENGTH
  {
    if |d| <= LINE_LENGTH then d else d[..LINE_LENGTH]
  }

  /** Inside a frame, after the bytes `d` of the payload. */
  ghost predicate Inside(r: Reader, d: seq<byte>) {
    IsReader(r) && !r.escaped && r.fill == |Cut(d)| && r.buffer[..r.fill] == Cut(d)
  }

  lemma FeedOne(r: Reader, c: byte)
    requires IsReader(r)
    ensures Feed(r, [c]).reader == Step(r, c).0
    ensures Feed(r, [c]).lines == if Step(r, c).1 == 0 then [] else [Step(r, c).0.buffer[..Step(r, c).1]]
  {
  }

  lemma FeedTwo(r: Reader, c: byte, d: byte)
    requires IsReader(r) && Step(r, c).1 == 0
    ensures var (t, n) := Step(Step(r, c).0, d);
      Feed(r, [c, d]) == Fed(t, if n == 0 then [] else [t.buffer[..n]])
  {
    hide Step;
    FeedOne(r, c);
    FeedOne(Step(r, c).0, d);
    FeedOn(r, [c], [d]);
    assert [c] + [d] == [c, d];
  }

  lemma StoredInside(r: Reader, d: seq<byte>, c: byte)
    requires Inside(r, d)
    ensures Inside(Stored(r, c), d + [c])
  {
  }

  /** An encoded byte is stored as it was, and no length is returned. */
  lemma ByteIsStored(r: Reader, d: seq<byte>, c: byte)
    requires Inside(r, d)
    ensures Inside(Feed(r, EncodedByte(c)).reader, d + [c]) && Feed(r, EncodedByte(c)).lines == []
  {
    hide Feed, Inside, Stored;
    NotEscaped(r, d);
    if c == SERIAL_ESCAPE {
      FeedTwo(r, c, c);
      StoredInside(r, d, c);
      EscapeIsStored(r, c);
    } else {
      FeedOne(r, c);
      StoredInside(r, d, c);
    }
  }

  lemma NotEscaped(r: Reader, d: seq<byte>)
    requires Inside(r, d)
    ensures IsReader(r) && !r.escaped
  {
  }

  lemma EscapeIsStored(r: Reader, c: byte)
    requires IsReader(r)
    ensures Stored(r.(escaped := true), c) == Stored(r, c)
  {
  }

  lemma {:induction false} PayloadIsStored(r: Reader, d: seq<byte>)
    requires Inside(r, [])
    ensures Inside(Feed(r, Encoded(d)).reader, d) && Feed(r, Encoded(d)).lines == []
    decreases |d|
  {
    hide Inside, Step, EncodedByte;
    InsideIsReader(r, []);
    if d != [] {
      var n := |d| - 1;
      PayloadIsStored(r, d[..n]);
      ByteIsStored(Feed(r, Encoded(d[..n])).reader, d[..n], d[n]);
      FeedOn(r, Encoded(d[..n]), EncodedByte(d[n]));
      assert d[..n] + [d[n]] == d;
    }
  }

  lemma InsideIsReader(r: Reader, d: seq<byte>)
    requires Inside(r, d)
    ensures IsReader(r)
  {
  }

  /** The stop mark returns the length of what is in the buffer. */
  lemma FrameIsRead(r: Reader, d: seq<byte>)
    requires IsReader(r) && !r.escaped
    ensures var f := Feed(r, Frame(d));
      IsReader(f.reader) && !f.reader.escaped && f.lines == if d == [] then [] else [Cut(d)]
  {
    hide Feed, Encoded;
    var start, stop := [SERIAL_ESCAPE, SERIAL_START_CONTROL], [SERIAL_ESCAPE, SERIAL_END];
    FeedTwo(r, SERIAL_ESCAPE, SERIAL_START_CONTROL);
    var begun := Feed(r, start).reader;
    PayloadIsStored(begun, d);
    var full := Feed(begun, Encoded(d)).reader;
    FeedTwo(full, SERIAL_ESCAPE, SERIAL_END);
    FeedOn(r, start, Encoded(d));
    FeedOn(r, start + Encoded(d), stop);
    assert Frame(d) == start + Encoded(d) + stop;
    assert |Cut(d)| == 0 <==> d == [];
  }

  /** From a reader that is not in the middle of an escape, every frame with a payload returns
      a length once, with the payload in the buffer, as far as it fits; an empty frame returns
      nothing that could be told from 0. */
  lemma {:induction false} FramesAreRead(r: Reader, payloads: seq<seq<byte>>)
    requires IsReader(r) && !r.escaped
    ensures var f := Feed(r, Frames(payloads));
      IsReader(f.reader) && !f.reader.escaped && f.lines == Lines(payloads)
    decreases |payloads|
  {
    hide Feed, Frame, Cut;
    if payloads == [] {
      FeedNothing(r);
    } else {
      var n := |payloads| - 1;
      FramesAreRead(r, payloads[..n]);
      FrameIsRead(Feed(r, Frames(payloads[..n])).reader, payloads[n]);
      FeedOn(r, Frames(payloads[..n]), Frame(payloads[n]));
    }
  }

  lemma FeedNothing(r: Reader)
    requires IsReader(r)
    ensures Feed(r, []) == Fed(r, [])
  {
  }

  /** The payloads that are not empty, cut to what fits. */
  function Lines(payloads: seq<seq<byte>>): seq<seq<byte>> {
    if payloads == [] then []
    else
      var n := |payloads| - 1;
      Lines(payloads[..n]) + if payloads[n] == [] then [] else [Cut(payloads[n])]
  }

  /** From the middle of an escape the start mark is taken for data, but the reader is in step
      again when the frame is over. */
  lemma OutOfStep(r: Reader, d: seq<byte>)
    requires IsReader(r) && r.escaped
    ensures IsReader(Feed(r, Frame(d)).reader) && !Feed(r, Frame(d)).reader.escaped
  {
    hide Feed, Encoded;
    var start, stop := [SERIAL_ESCAPE, SERIAL_START_CONTROL], [SERIAL_ESCAPE, SERIAL_END];
    FeedTwo(r, SERIAL_ESCAPE, SERIAL_START_CONTROL);
    StaysInStep(Feed(r, start).reader, d);
    var full := Feed(Feed(r, start).reader, Encoded(d)).reader;
    FeedTwo(full, SERIAL_ESCAPE, SERIAL_END);
    FeedOn(r, start, Encoded(d));
    FeedOn(r, start + Encoded(d), stop);
    assert Frame(d) == start + Encoded(d) + stop;
  }

  lemma {:induction false} StaysInStep(r: Reader, d: seq<byte>)
    requires IsReader(r) && !r.escaped
    ensures IsReader(Feed(r, Encoded(d)).reader) && !Feed(r, Encoded(d)).reader.escaped
    decreases |d|
  {
    hide Feed;
    if d == [] {
      FeedNothing(r);
    } else {
      var n := |d| - 1;
      StaysInStep(r, d[..n]);
      var s := Feed(r, Encoded(d[..n])).reader;
      FeedOn(r, Encoded(d[..n]), EncodedByte(d[n]));
      if d[n] == SERIAL_ESCAPE {
        FeedTwo(s, d[n], d[n]);
      } else {
        FeedOne(s, d[n]);
      }
    }
  }

  // ---------- the implementation ----------

  class Sender {
    /** What was put on the line. */
    var line: seq<byte>

    method Putc(c: byte)
      modifies this
      ensures line == old(line) + [c]
    {
      line := line + [c];
    }

    /** `serial_putenc` */
    method PutEncoded(d: seq<byte>)
      modifies this
      ensures line == old(line) + Encoded(d)
    {
      for i := 0 to |d|
        invariant line == old(line) + Encoded(d[..i])
      {
        assert d[..i + 1][..i] == d[..i];
        if d[i] == SERIAL_ESCAPE {
          Putc(SERIAL_ESCAPE);
        }
        Putc(d[i]);
      }
      assert d[..|d|] == d;
    }

    /** `serial_putStart`, `serial_putenc` and `serial_putStop` */
    method PutFrame(d: seq<byte>)
      modifies this
      ensures line == old(line) + Frame(d)
    {
      hide Encoded;
      Putc(SERIAL_ESCAPE);
      Putc(SERIAL_START_CONTROL);
      PutEncoded(d);
      Putc(SERIAL_ESCAPE);
      Putc(SERIAL_END);
    }
  }

  datatype Input = NoData | Data(value: byte)

  class Receiver {
    var fill: nat
    var escaped: bool
    const buffer: array<byte>

    constructor ()
      ensures buffer.Length == SERIAL_BUFFERLEN && fresh(buffer) && fill == 0 && !escaped
    {
      fill, escaped := 0, false;
      buffer := new byte[SERIAL_BUFFERLEN];
    }

    function Current(): Reader
      reads this, buffer
    {
      Reader(fill, escaped, buffer[..])
    }

    /** `readline`, with what `uart_getc` gives it. */
    method Readline(input: Input) returns (length: nat)
      requires IsReader(Current())
      modifies this, buffer
      ensures IsReader(Current())
      ensures input.NoData? ==> length == 0 && Current() == old(Current())
      ensures input.Data? ==> (Current(), length) == Step(old(Current()), input.value)
    {
      if input.NoData? {
        return 0;
      }
      var data := input.value;
      if data == SERIAL_ESCAPE {
        if !escaped {
          escaped := true;
          return 0;
        }
        escaped := false;
      } else if escaped {
        escaped := false;
        if data == SERIAL_START_CONTROL {
          fill := 0;
          return 0;
        } else if data == SERIAL_END {
          return fill;
        }
      }
      ghost var before := buffer[..];
      buffer[fill] := data;
      assert buffer[..] == before[fill := data];
      fill := fill + 1;
      if fill >= SERIAL_BUFFERLEN {
        fill := SERIAL_BUFFERLEN - 1;
      }
      return 0;
    }
  }

  /** The bytes among what was polled. */
  function BytesOf(inputs: seq<Input>): seq<byte> {
    if inputs == [] then []
    else
      var n := |inputs| - 1;
      BytesOf(inputs[..n]) + if inputs[n].NoData? then [] else [inputs[n].value]
  }

  /** `serial_readline`, polled again and again: polls without data make no difference. */
  method ReadLines(receiver: Receiver, inputs: seq<Input>) returns (lines: seq<seq<byte>>)
    requires IsReader(receiver.Current())
    modifies receiver, receiver.buffer
    ensures IsReader(receiver.Current())
    ensures Fed(receiver.Current(), lines) == Feed(old(receiver.Current()), BytesOf(inputs))
  {
    hide Feed, Step;
    lines := [];
    ghost var r := receiver.Current();
    FeedNothing(r);
    assert inputs[..0] == [];
    for i := 0 to |inputs|
      invariant IsReader(receiver.Current())
      invariant Fed(receiver.Current(), lines) == Feed(r, BytesOf(inputs[..i]))
    {
      assert inputs[..i + 1][..i] == inputs[..i];
      ghost var before := receiver.Current();
      var length := receiver.Readline(inputs[i]);
      if inputs[i].Data? {
        FeedOne(before, inputs[i].value);
        FeedOn(r, BytesOf(inputs[..i]), [inputs[i].value]);
        assert BytesOf(inputs[..i + 1]) == BytesOf(inputs[..i]) + [inputs[i].value];
      } else {
        assert BytesOf(inputs[..i + 1]) == BytesOf(inputs[..i]);
      }
      assert length <= receiver.fill && receiver.buffer[..length] == receiver.Current().buffer[..length];
      if length != 0 {
        lines := lines + [receiver.buffer[..length]];
      }
    }
    assert inputs[..|inputs|] == inputs;
  }
}
