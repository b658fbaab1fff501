/** How the MCP client reads its server's stdout (skynet/mcp.py): one JSON text a line, or a
    header part with a Content-Length followed by that many bytes, over a buffer that the
    operating system fills in chunks of its own choosing. */
module Framing {
  import opened Options

  type Byte = b: int | 0 <= b < 256
  type Bytes = seq<Byte>

  const NEWLINE: Byte := 10
  const RETURN: Byte := 13
  const SPACE: Byte := 32
  const COLON: Byte := 58
  const UNDERSCORE: Byte := 95
  const CHUNK := 64 * 1024

  /** `content-length` in ASCII. */
  const CONTENT_LENGTH: Bytes := [99, 111, 110, 116, 101, 110, 116, 45, 108, 101, 110, 103, 116, 104]

  // ------------------------------------------------------------------------------------------
  // Byte strings
  // ------------------------------------------------------------------------------------------

  /** What `bytes.strip` takes for whitespace; `str.strip` also takes the separators 28 to 31. */
  predicate IsSpace(b: Byte, text: bool) {
    9 <= b <= 13 || b == SPACE || (text && 28 <= b <= 31)
  }

  function StripRight(s: Bytes, text: bool): Bytes {
    if s != [] && IsSpace(s[|s| - 1], text) then StripRight(s[..|s| - 1], text) else s
  }

  function StripLeft(s: Bytes, text: bool): Bytes {
    if s != [] && IsSpace(s[0], text) then StripLeft(s[1..], text) else s
  }

  function Strip(s: Bytes, text: bool): Bytes {
    StripLeft(StripRight(s, text), text)
  }

  function LowerByte(b: Byte): Byte {
    if 65 <= b <= 90 then b + 32 else b
  }

  function Lower(s: Bytes): (r: Bytes)
    ensures |r| == |s|
  {
    seq(|s|, i requires 0 <= i < |s| => LowerByte(s[i]))
  }

  function IndexOf(s: Bytes, b: Byte): (r: Option<nat>)
    ensures r.Some? ==> r.value < |s| && s[r.value] == b && b !in s[..r.value]
    ensures r.None? ==> b !in s
  {
    if s == [] then None
    else if s[0] == b then Some(0)
    else
      match IndexOf(s[1..], b)
      case None => None
      case Some(i) => assert s[..i + 1] == [s[0]] + s[1..][..i]; Some(i + 1)
  }

  predicate IsDigit(b: Byte) {
    48 <= b <= 57
  }

  /** Decimal digits, with single underscores between them, as Python's `int` allows. */
  function DigitsValue(s: Bytes): Option<int> {
    if s == [] || !IsDigit(s[|s| - 1]) then None
    else
      var digit := s[|s| - 1] - 48;
      if |s| == 1 then Some(digit)
      else
        match DigitsValue(if s[|s| - 2] == UNDERSCORE then s[..|s| - 2] else s[..|s| - 1])
        case None => None
        case Some(v) => Some(10 * v + digit)
  }

  /** Python's `int(text)`; None is its ValueError. */
  function ParseInt(s: Bytes): Option<int> {
    var t := Strip(s, true);
    var negative := t != [] && t[0] == 45;
    match DigitsValue(if t != [] && (t[0] == 43 || t[0] == 45) then t[1..] else t)
    case None => None
    case Some(v) =>
      Some(if negative then -v else v)
  }

  predicate IsAscii(s: Bytes) {
    forall b | b in s :: b < 128
  }

  // ------------------------------------------------------------------------------------------
  // Reading one frame from a stream known in full
  // ------------------------------------------------------------------------------------------

  /** A frame body (the bytes given to the JSON parser), a framing error, or the stream's end
      before the frame's; `rest` is what the read leaves of the stream. */
  datatype Outcome =
    | Frame(body: Bytes, rest: Bytes)
    | Bad(rest: Bytes)
    | Ended(rest: Bytes)

  datatype LineOutcome = Line(line: Bytes, rest: Bytes) | TooLong | NoLine

  function ReadLine(stream: Bytes, limit: nat): LineOutcome {
    match IndexOf(stream, NEWLINE)
    case Some(p) => if p > limit then TooLong else Line(stream[..p], stream[p + 1..])
    case None => if |stream| > limit then TooLong else NoLine
  }

  /** `first_line.lower().startswith(b"content-length:")` */
  predicate IsLengthHeader(line: Bytes) {
    |line| > |CONTENT_LENGTH| && Lower(line[..|CONTENT_LENGTH|]) == CONTENT_LENGTH && line[|CONTENT_LENGTH|] == COLON
  }

  function ReadFrame(stream: Bytes, limit: nat): Outcome {
    match ReadLine(stream, limit)
    case TooLong => Bad(stream)
    case NoLine => Ended(stream)
    case Line(line, rest) =>
      var first := Strip(line, false);
      if IsLengthHeader(first) then
        var length := Strip(first[|CONTENT_LENGTH| + 1..], false);
        if IsAscii(length) then ReadHeaders(rest, limit, length) else Bad(rest)
      else Frame(first, rest)
  }

  function ReadHeaders(stream: Bytes, limit: nat, length: Bytes): Outcome
    decreases |stream|
  {
    match ReadLine(stream, limit)
    case TooLong => Bad(stream)
    case NoLine => Ended(stream)
    case Line(line, rest) =>
      var header := Strip(line, false);
      if header == [] then ReadBody(rest, limit, length)
      else
        match IndexOf(header, COLON)
        case None => Bad(rest)
        case Some(c) => ReadHeaders(rest, limit, Override(header, c, length))
  }

  /** A later Content-Length header replaces the length read so far. */
  function Override(header: Bytes, colon: nat, length: Bytes): Bytes
    requires colon < |header|
  {
    if Strip(Lower(header[..colon]), true) == CONTENT_LENGTH then Strip(header[colon + 1..], true) else length
  }

  function ReadBody(stream: Bytes, limit: nat, length: Bytes): Outcome {
    match ParseInt(length)
    case None => Bad(stream)
    case Some(n) =>
      if n < 0 || n > limit then Bad(stream)
      else if |stream| < n then Ended(stream)
      else Frame(stream[..n], stream[n..])
  }

  /** What is left of a stream after some lines that are not blank. */
  function AfterLines(stream: Bytes, limit: nat, lines: nat): Option<Bytes> {
    if lines == 0 then Some(stream)
    else
      match AfterLines(stream, limit, lines - 1)
      case None => None
      case Some(at) =>
        (match ReadLine(at, limit)
         case Line(line, rest) => if Strip(line, false) == [] then None else Some(rest)
         case _ => None)
  }

  /** And after the blank one behind them. */
  function AfterBlank(stream: Bytes, limit: nat, lines: nat): Option<Bytes> {
    match AfterLines(stream, limit, lines)
    case None => None
    case Some(at) =>
      match ReadLine(at, limit)
      case Line(line, rest) => if Strip(line, false) == [] then Some(rest) else None
      case _ => None
  }

  /** The next line announces a length. */
  predicate StartsSized(stream: Bytes, limit: nat) {
    ReadLine(stream, limit).Line? && IsLengthHeader(Strip(ReadLine(stream, limit).line, false))
  }

  /** A frame torn by the deadline: its first line announced a length, and that line, and perhaps
      more of its header part, are gone from the stream. */
  ghost predicate Torn(stream: Bytes, limit: nat, left: Bytes) {
    StartsSized(stream, limit) && exists lines: nat :: 1 <= lines && TornAfter(stream, limit, lines, left)
  }

  predicate TornAfter(stream: Bytes, limit: nat, lines: nat, left: Bytes) {
    AfterLines(stream, limit, lines) == Some(left) || AfterBlank(stream, limit, lines) == Some(left)
  }

  lemma OneMoreLine(stream: Bytes, at: Bytes, limit: nat, lines: nat, line: Bytes, rest: Bytes)
    requires AfterLines(stream, limit, lines) == Some(at) && ReadLine(at, limit) == Line(line, rest)
    ensures if Strip(line, false) == [] then AfterBlank(stream, limit, lines) == Some(rest)
            else AfterLines(stream, limit, lines + 1) == Some(rest)
  {
  }

  lemma {:induction false} AfterLinesJoin(stream: Bytes, rest: Bytes, limit: nat, lines: nat)
    requires AfterLines(stream, limit, 1) == Some(rest)
    ensures AfterLines(stream, limit, lines + 1) == AfterLines(rest, limit, lines)
  {
    if lines == 0 {
    } else {
      AfterLinesJoin(stream, rest, limit, lines - 1);
    }
  }

  // ------------------------------------------------------------------------------------------
  // The reader itself, over a buffer and chunks of unknown size
  // ------------------------------------------------------------------------------------------

  datatype Found = At(position: nat) | Oversized | Closed | LineTimeout
  datatype Reply = Body(body: Bytes) | FramingError | ProcessClosed | TimedOut

  class Reader {
    const limit: nat
    /** Everything the server will ever have written. */
    ghost const stream: Bytes
    ghost var consumed: Bytes
    var buffer: Bytes
    /** What the operating system has not handed over yet. */
    var unread: Bytes
    /** How many chunks were waited for. */
    ghost var waits: nat

    ghost predicate Valid()
      reads this
    {
      consumed + buffer + unread == stream
    }

    ghost function Pending(): Bytes
      reads this
    {
      buffer + unread
    }

    /** Of the bytes that had not been read, those handed over by now hold a line end. */
    twostate predicate LineArrived()
      reads this
    {
      |unread| <= |old(Pending())| && NEWLINE in old(Pending())[..|old(Pending())| - |unread|]
    }

    constructor (stream: Bytes, limit: nat)
      ensures Valid() && Pending() == stream && this.stream == stream && this.limit == limit
    {
      this.stream := stream;
      this.limit := limit;
      consumed, buffer, unread, waits := [], [], stream, 0;
    }

    /** `os.read`: between one byte and the amount asked for, none only at the stream's end. */
    method Receive(most: nat) returns (chunk: Bytes)
      requires Valid() && 0 < most <= CHUNK
      modifies this`unread, this`waits
      ensures waits == old(waits) + 1
      ensures chunk + unread == old(unread) && |chunk| <= most
      ensures chunk == [] <==> old(unread) == []
    {
      waits := waits + 1;
      if unread == [] { return []; }
      var size: nat :| 1 <= size <= most && size <= |unread|;
      chunk := unread[..size];
      unread := unread[size..];
    }

    /** `patience` is how many more chunks arrive before the deadline; `left` how many of them did
        not have to be waited for. */
    method ReadUntil(patience: nat) returns (found: Found, left: nat)
      requires Valid()
      modifies this`buffer, this`unread, this`waits
      ensures Valid() && Pending() == old(Pending())
      ensures left <= patience && patience - left <= |old(unread)| - |unread| + (if found.Closed? then 1 else 0)
      ensures patience == 0 ==> unread == old(unread)
      ensures left <= patience && waits == old(waits) + patience - left
      ensures found.LineTimeout? ==> left == 0 && NEWLINE !in buffer
      ensures found.At? ==> found.position < |buffer|
                            && ReadLine(Pending(), limit) == Line(buffer[..found.position], Pending()[found.position + 1..])
      ensures found.Oversized? ==> ReadLine(Pending(), limit) == TooLong
      ensures found.Closed? ==> ReadLine(Pending(), limit) == NoLine && unread == []
    {
      left := patience;
      while true
        invariant Valid() && Pending() == old(Pending())
        invariant left <= patience && patience - left <= |old(unread)| - |unread|
        invariant waits == old(waits) + patience - left
        invariant patience == 0 ==> unread == old(unread)
        decreases |unread|
      {
        var position := IndexOf(buffer, NEWLINE);
        FindInBuffer(buffer, unread, NEWLINE);
        if position.Some? {
          assert Pending()[..position.value] == buffer[..position.value];
          return if position.value > limit then Oversized else At(position.value), left;
        }
        if |buffer| > limit {
          return Oversized, left;
        }
        if left == 0 { return LineTimeout, 0; }
        left := left - 1;
        var chunk := Receive(CHUNK);
        if chunk == [] {
          assert Pending() == buffer;
          return Closed, left;
        }
        assert consumed + (buffer + chunk) + unread == consumed + buffer + (chunk + unread);
        assert (buffer + chunk) + unread == buffer + (chunk + unread);
        buffer := buffer + chunk;
      }
    }

    /** `bytes(buffer[:position]).strip()` and `del buffer[:position + 1]` */
    method TakeLine(position: nat) returns (line: Bytes)
      requires Valid() && position < |buffer|
      modifies this`buffer, this`consumed
      ensures Valid() && buffer == old(buffer[position + 1..])
      ensures line == Strip(old(buffer[..position]), false)
    {
      line := Strip(buffer[..position], false);
      consumed := consumed + buffer[..position + 1];
      assert consumed + buffer[position + 1..] + unread == old(consumed) + (buffer[..position + 1] + buffer[position + 1..]) + unread;
      assert buffer[..position + 1] + buffer[position + 1..] == buffer;
      buffer := buffer[position + 1..];
    }

    /** The next line, or the reply that ends the read. */
    method NextLine(patience: nat) returns (line: Bytes, stop: Option<Reply>, left: nat)
      requires Valid()
      modifies this`buffer, this`unread, this`waits, this`consumed
      ensures Valid() && left <= patience && waits == old(waits) + patience - left
      ensures stop == Some(TimedOut) ==> left == 0
      ensures stop.None? ==> left <= patience && patience - left <= |old(unread)| - |unread|
      ensures |unread| <= |old(unread)| && (patience == 0 ==> unread == old(unread))
      ensures stop == Some(TimedOut) ==> patience <= |old(unread)| && Pending() == old(Pending())
      ensures stop.None? || stop == Some(TimedOut) ==> (stop.None? <==> LineArrived())
      ensures
        match ReadLine(old(Pending()), limit)
        case Line(raw, rest) => if stop.None? then line == Strip(raw, false) && Pending() == rest else stop == Some(TimedOut)
        case TooLong => stop.Some? && (stop.value.TimedOut? || stop.value.FramingError?) && Pending() == old(Pending())
        case NoLine => stop.Some? && (stop.value.TimedOut? || stop.value.ProcessClosed?) && Pending() == old(Pending())
    {
      var found;
      found, left := ReadUntil(patience);
      assert old(Pending())[..|old(Pending())| - |unread|] == buffer;
      if !found.At? {
        return [], Some(NoLineReply(found)), left;
      }
      assert buffer[found.position] == NEWLINE;
      line := TakeLine(found.position);
      assert Pending() == old(Pending())[found.position + 1..];
      stop := None;
    }

    /** `bytes(buffer[:needed])` and `del buffer[:needed]` */
    method TakeBody(needed: nat) returns (body: Bytes)
      requires Valid() && needed <= |buffer|
      modifies this`buffer, this`consumed
      ensures Valid() && body == old(buffer[..needed]) && buffer == old(buffer[needed..])
    {
      body := buffer[..needed];
      consumed := consumed + body;
      assert consumed + buffer[needed..] + unread == old(consumed) + (body + buffer[needed..]) + unread;
      assert body + buffer[needed..] == buffer;
      buffer := buffer[needed..];
    }

    /** The length headers promised, and that many bytes; what follows stays in the buffer. */
    method ReadExact(needed: nat, patience: nat) returns (reply: Reply)
      requires Valid()
      modifies this`buffer, this`unread, this`waits, this`consumed
      ensures Valid() && !reply.FramingError?
      ensures waits <= old(waits) + patience && (reply.TimedOut? ==> waits == old(waits) + patience)
      ensures |old(unread)| - |unread| <= if needed <= |old(buffer)| then 0 else needed - |old(buffer)|
      ensures reply.Body? ==> needed <= |old(Pending())| && reply.body == old(Pending())[..needed]
                              && Pending() == old(Pending())[needed..]
      ensures reply.ProcessClosed? ==> |old(Pending())| < needed && Pending() == old(Pending())
      ensures reply.TimedOut? ==> Pending() == old(Pending()) && patience <= |old(unread)|
      ensures |unread| <= |old(unread)| && (patience == 0 ==> unread == old(unread))
    {
      var left := patience;
      while |buffer| < needed
        invariant Valid() && Pending() == old(Pending()) && consumed == old(consumed)
        invariant 0 <= left <= patience && patience - left <= |old(unread)| - |unread|
        invariant waits == old(waits) + patience - left && (|buffer| <= needed || unread == old(unread))
        invariant |buffer| - |old(buffer)| == |old(unread)| - |unread|
        invariant patience == 0 ==> unread == old(unread)
        decreases |unread|
      {
        if left == 0 { return TimedOut; }
        left := left - 1;
        var wanted := if CHUNK <= needed - |buffer| then CHUNK else needed - |buffer|;
        var chunk := Receive(wanted);
        if chunk == [] {
          return ProcessClosed;
        }
        assert consumed + (buffer + chunk) + unread == consumed + buffer + (chunk + unread);
        assert (buffer + chunk) + unread == buffer + (chunk + unread);
        buffer := buffer + chunk;
      }
      var body := TakeBody(needed);
      return Body(body);
    }

    /** One line of the header part: a header, which may replace the length, or the blank line
        (`header` is empty), or the reply that ends the read. */
    method NextHeader(length: Bytes, patience: nat) returns (header: Bytes, newer: Bytes, stop: Option<Reply>, left: nat)
      requires Valid()
      modifies this`buffer, this`unread, this`waits, this`consumed
      ensures Valid() && left <= patience && waits == old(waits) + patience - left
      ensures stop == Some(TimedOut) ==> left == 0
      ensures stop.None? ==> left <= patience && patience - left <= |old(unread)| - |unread|
      ensures |unread| <= |old(unread)| && (patience == 0 ==> unread == old(unread))
      ensures stop == Some(TimedOut) ==> patience <= |old(unread)| && Pending() == old(Pending())
      ensures stop.None? ==> ReadLine(old(Pending()), limit).Line? && |Pending()| < |old(Pending())|
                             && Pending() == ReadLine(old(Pending()), limit).rest && header == Strip(ReadLine(old(Pending()), limit).line, false)
      ensures stop.None? ==> ReadHeaders(old(Pending()), limit, length)
                             == if header == [] then ReadBody(Pending(), limit, newer) else ReadHeaders(Pending(), limit, newer)
      ensures stop.Some? && !stop.value.TimedOut? ==>
                var outcome := ReadHeaders(old(Pending()), limit, length);
                Agrees(stop.value, outcome) && Pending() == outcome.rest
    {
      newer := length;
      header, stop, left := NextLine(patience);
      if stop.Some? || header == [] { return; }
      var colon := IndexOf(header, COLON);
      if colon.None? {
        stop := Some(FramingError);
        return;
      }
      newer := Override(header, colon.value, length);
    }

    /** The header lines after the first, up to the blank one: the length they leave standing,
        or the reply that ends the read. */
    method ReadHeaderLines(first: Bytes, patience: nat)
      returns (length: Bytes, stop: Option<Reply>, left: nat, ghost lines: nat)
      requires Valid()
      modifies this`buffer, this`unread, this`waits, this`consumed
      ensures Valid() && left <= patience && waits == old(waits) + patience - left
      ensures stop == Some(TimedOut) ==> left == 0
      ensures stop.None? ==> left <= patience && patience - left <= |old(unread)| - |unread|
      ensures |unread| <= |old(unread)| && (patience == 0 ==> unread == old(unread))
      ensures stop == Some(TimedOut) ==> patience <= |old(unread)| && AfterLines(old(Pending()), limit, lines) == Some(Pending())
      ensures stop.None? ==> AfterBlank(old(Pending()), limit, lines) == Some(Pending())
      ensures stop.None? ==> ReadHeaders(old(Pending()), limit, first) == ReadBody(Pending(), limit, length)
      ensures stop.Some? && !stop.value.TimedOut? ==>
                var outcome := ReadHeaders(old(Pending()), limit, first);
                Agrees(stop.value, outcome) && Pending() == outcome.rest
    {
      ghost var stream := Pending();
      length, left, lines := first, patience, 0;
      while true
        invariant |unread| <= |old(unread)| && (patience == 0 ==> unread == old(unread))
        invariant left <= patience && patience - left <= |old(unread)| - |unread|
        invariant waits == old(waits) + patience - left
        invariant AfterLines(stream, limit, lines) == Some(Pending())
        invariant Valid() && ReadHeaders(stream, limit, first) == ReadHeaders(Pending(), limit, length)
        decreases |Pending()|
      {
        ghost var at := Pending();
        var header;
        header, length, stop, left := NextHeader(length, left);
        if stop.Some? { return; }
        OneMoreLine(stream, at, limit, lines, ReadLine(at, limit).line, Pending());
        if header == [] { return; }
        lines := lines + 1;
      }
    }

    /** One frame, however the bytes arrive: what a read gives, and what it leaves of the stream,
        depend on the bytes alone, unless the deadline passes first, and it does not pass while
        bytes keep coming in time. A read that times out leaves the stream alone exactly when no
        line end has arrived by then; otherwise it has torn a frame that announced its length. */
    method Read(patience: nat) returns (reply: Reply)
      requires Valid()
      modifies this`buffer, this`unread, this`waits, this`consumed
      ensures Valid() && waits <= old(waits) + patience
      ensures reply.TimedOut? ==> waits == old(waits) + patience
      ensures patience > |old(unread)| ==> !reply.TimedOut?
      ensures patience == 0 ==> unread == old(unread)
      ensures reply.TimedOut? || (Agrees(reply, ReadFrame(old(Pending()), limit)) && Pending() == ReadFrame(old(Pending()), limit).rest)
      ensures reply.TimedOut? ==>
                if LineArrived() then Torn(old(Pending()), limit, Pending()) else Pending() == old(Pending())
    {
      var first, stop, left := NextLine(patience);
      if stop.Some? {
        return stop.value;
      }
      if !IsLengthHeader(first) {
        return Body(first);
      }
      var length := Strip(first[|CONTENT_LENGTH| + 1..], false);
      if !IsAscii(length) {
        return FramingError;
      }
      ghost var after := Pending();
      ghost var lines;
      length, stop, left, lines := ReadHeaderLines(length, left);
      AfterLinesJoin(old(Pending()), after, limit, lines);
      if stop.Some? {
        assert stop.value.TimedOut? ==> TornAfter(old(Pending()), limit, lines + 1, Pending());
        return stop.value;
      }
      assert TornAfter(old(Pending()), limit, lines + 1, Pending());
      var size := ParseInt(length);
      if size.None? || size.value < 0 || size.value > limit {
        return FramingError;
      }
      reply := ReadExact(size.value, left);
    }
  }

  function NoLineReply(found: Found): Reply
    requires !found.At?
  {
    match found
    case Oversized => FramingError
    case Closed => ProcessClosed
    case LineTimeout => TimedOut
  }

  predicate Agrees(reply: Reply, outcome: Outcome) {
    match outcome
    case Frame(body, _) => reply == Body(body)
    case Bad(_) => reply == FramingError
    case Ended(_) => reply == ProcessClosed
  }

  /** A byte found in the buffer is the first in the whole stream; one the buffer lacks is past it. */
  lemma FindInBuffer(buffer: Bytes, unread: Bytes, b: Byte)
    ensures IndexOf(buffer, b).Some? ==> IndexOf(buffer + unread, b) == IndexOf(buffer, b)
    ensures IndexOf(buffer, b).None? ==>
              IndexOf(buffer + unread, b).None? || IndexOf(buffer + unread, b).value >= |buffer|
  {
    var whole := buffer + unread;
    match IndexOf(buffer, b) {
      case Some(p) =>
        assert whole[p] == b && whole[..p] == buffer[..p];
        FirstIsUnique(whole, b, p);
      case None =>
        assert forall i | 0 <= i < |buffer| :: whole[i] == buffer[i] && buffer[i] in buffer;
    }
  }

  lemma FirstIsUnique(s: Bytes, b: Byte, p: nat)
    requires p < |s| && s[p] == b && b !in s[..p]
    ensures IndexOf(s, b) == Some(p)
  {
    var q := IndexOf(s, b);
    assert s[p] in s;
    assert forall i | 0 <= i < p :: s[i] in s[..p];
    assert forall i | 0 <= i < q.value :: s[i] in s[..q.value];
  }
}
