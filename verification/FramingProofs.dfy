/** What a server framed is read back, frame after frame. */
module FramingProofs {
  import opened Options
  import opened Framing

  /** A frame as a server writes it: one line, as `_write` makes it, or a header part whose first
      line is the Content-Length, further headers, a blank line, and the body. */
  datatype Message =
    | OneLine(body: Bytes)
    | Sized(headers: seq<Bytes>, body: Bytes)

  /** `Content-Length: ` */
  const LENGTH_PREFIX: Bytes := [67, 111, 110, 116, 101, 110, 116, 45, 76, 101, 110, 103, 116, 104, 58, 32]

  function Decimal(n: nat): (s: Bytes)
    ensures s != []
  {
    if n < 10 then [48 + n] else Decimal(n / 10) + [48 + n % 10]
  }

  function HeaderLines(headers: seq<Bytes>): Bytes {
    if headers == [] then [RETURN, NEWLINE] else headers[0] + [RETURN, NEWLINE] + HeaderLines(headers[1..])
  }

  function Encode(m: Message): Bytes {
    match m
    case OneLine(body) => body + [NEWLINE]
    case Sized(headers, body) => LENGTH_PREFIX + Decimal(|body|) + [RETURN, NEWLINE] + HeaderLines(headers) + body
  }

  function EncodeAll(ms: seq<Message>): Bytes {
    if ms == [] then [] else Encode(ms[0]) + EncodeAll(ms[1..])
  }

  /** Starts and ends with something other than whitespace. */
  predicate Tight(s: Bytes) {
    s != [] && !IsSpace(s[0], true) && !IsSpace(s[|s| - 1], true)
  }

  /** A further header: one tight line, a colon in it, and not about the length. */
  predicate WellFormedHeader(h: Bytes, limit: nat) {
    && Tight(h) && NEWLINE !in h && |h| < limit
    && IndexOf(h, COLON).Some?
    && Strip(Lower(h[..IndexOf(h, COLON).value]), true) != CONTENT_LENGTH
  }

  predicate WellFormed(m: Message, limit: nat) {
    match m
    case OneLine(body) => Tight(body) && NEWLINE !in body && |body| <= limit && !IsLengthHeader(body)
    case Sized(headers, body) =>
      && |body| <= limit
      && |LENGTH_PREFIX| + |Decimal(|body|)| < limit
      && forall h | h in headers :: WellFormedHeader(h, limit)
  }

  // ------------------------------------------------------------------------------------------
  // Lengths
  // ------------------------------------------------------------------------------------------

  lemma {:induction false} DecimalIsDigits(n: nat)
    ensures forall b | b in Decimal(n) :: IsDigit(b)
    ensures DigitsValue(Decimal(n)) == Some(n)
  {
    if n < 10 {
    } else {
      DecimalIsDigits(n / 10);
      var s, front := Decimal(n), Decimal(n / 10);
      assert s[..|s| - 1] == front && s[|s| - 1] == 48 + n % 10;
      assert s[|s| - 2] == front[|front| - 1] && front[|front| - 1] in front;
      assert n == 10 * (n / 10) + n % 10;
    }
  }

  lemma StripReturn(s: Bytes)
    requires Tight(s)
    ensures Strip(s + [RETURN], false) == s
  {
    assert (s + [RETURN])[..|s|] == s;
    assert StripRight(s + [RETURN], false) == StripRight(s, false) == s;
  }

  lemma StripSpace(s: Bytes)
    requires Tight(s)
    ensures Strip([SPACE] + s, false) == s
  {
    var t := [SPACE] + s;
    assert t[|t| - 1] == s[|s| - 1];
    assert StripRight(t, false) == t;
    assert t[1..] == s;
    assert StripLeft(t, false) == StripLeft(s, false) == s;
  }

  lemma {:induction false} ParseDecimal(n: nat)
    ensures Tight(Decimal(n)) && IsAscii(Decimal(n)) && ParseInt(Decimal(n)) == Some(n)
  {
    DecimalIsDigits(n);
    var s := Decimal(n);
    assert s[0] in s && s[|s| - 1] in s;
  }

  lemma PrefixIsLengthHeader(rest: Bytes)
    ensures IsLengthHeader(LENGTH_PREFIX + rest)
    ensures (LENGTH_PREFIX + rest)[|CONTENT_LENGTH| + 1..] == [SPACE] + rest
  {
    assert (LENGTH_PREFIX + rest)[..|CONTENT_LENGTH|] == LENGTH_PREFIX[..|CONTENT_LENGTH|];
    assert Lower(LENGTH_PREFIX[..|CONTENT_LENGTH|]) == CONTENT_LENGTH;
  }

  // ------------------------------------------------------------------------------------------
  // Lines
  // ------------------------------------------------------------------------------------------

  lemma LineReadsBack(line: Bytes, rest: Bytes, limit: nat)
    requires NEWLINE !in line && |line| <= limit
    ensures ReadLine(line + [NEWLINE] + rest, limit) == Line(line, rest)
  {
    var s := line + [NEWLINE] + rest;
    assert s[|line|] == NEWLINE && s[..|line|] == line && s[|line| + 1..] == rest;
    FirstIsUnique(s, NEWLINE, |line|);
  }

  lemma {:induction false} HeaderLineReadsBack(headers: seq<Bytes>, after: Bytes, limit: nat)
    requires headers != [] && WellFormedHeader(headers[0], limit)
    ensures ReadLine(HeaderLines(headers) + after, limit) == Line(headers[0] + [RETURN], HeaderLines(headers[1..]) + after)
    ensures Strip(headers[0] + [RETURN], false) == headers[0]
  {
    var tail := HeaderLines(headers[1..]) + after;
    assert HeaderLines(headers) + after == (headers[0] + [RETURN]) + [NEWLINE] + tail;
    LineReadsBack(headers[0] + [RETURN], tail, limit);
    StripReturn(headers[0]);
  }

  lemma BlankLineReadsBack(after: Bytes, limit: nat)
    requires 0 < limit
    ensures ReadLine(HeaderLines([]) + after, limit) == Line([RETURN], after) && Strip([RETURN], false) == []
  {
    assert HeaderLines([]) + after == [RETURN] + [NEWLINE] + after;
    LineReadsBack([RETURN], after, limit);
    assert StripRight([RETURN], false) == StripRight([], false);
  }

  lemma {:induction false} HeadersReadBack(headers: seq<Bytes>, body: Bytes, rest: Bytes, limit: nat)
    requires |body| <= limit && 0 < limit && forall h | h in headers :: WellFormedHeader(h, limit)
    ensures ReadHeaders(HeaderLines(headers) + (body + rest), limit, Decimal(|body|)) == Frame(body, rest)
  {
    var after := body + rest;
    if headers == [] {
      BlankLineReadsBack(after, limit);
      ParseDecimal(|body|);
      assert after[..|body|] == body && after[|body|..] == rest;
    } else {
      HeaderLineReadsBack(headers, after, limit);
      HeadersReadBack(headers[1..], body, rest, limit);
    }
  }

  /** One frame read gives the body the server framed, and takes exactly its bytes. */
  lemma FrameReadsBack(m: Message, rest: Bytes, limit: nat)
    requires WellFormed(m, limit)
    ensures ReadFrame(Encode(m) + rest, limit) == Frame(m.body, rest)
  {
    match m {
      case OneLine(body) =>
        LineReadsBack(body, rest, limit);
      case Sized(headers, body) =>
        var digits := Decimal(|body|);
        var first := LENGTH_PREFIX + digits;
        var after := HeaderLines(headers) + (body + rest);
        ParseDecimal(|body|);
        assert Encode(m) + rest == (first + [RETURN]) + [NEWLINE] + after;
        assert NEWLINE !in first by { assert forall b | b in digits :: IsDigit(b) by { DecimalIsDigits(|body|); } }
        LineReadsBack(first + [RETURN], after, limit);
        assert Tight(first);
        StripReturn(first);
        PrefixIsLengthHeader(digits);
        StripSpace(digits);
        HeadersReadBack(headers, body, rest, limit);
    }
  }

  // ------------------------------------------------------------------------------------------
  // Streams
  // ------------------------------------------------------------------------------------------

  /** The bodies that `n` successive reads give, and what they leave; None if one fails. */
  function ReadMany(stream: Bytes, limit: nat, n: nat): Option<(seq<Bytes>, Bytes)>
    decreases n
  {
    if n == 0 then Some(([], stream))
    else
      match ReadFrame(stream, limit)
      case Frame(body, rest) =>
        (match ReadMany(rest, limit, n - 1)
         case None => None
         case Some(r) => Some(([body] + r.0, r.1)))
      case _ => None
  }

  function Bodies(ms: seq<Message>): seq<Bytes> {
    seq(|ms|, i requires 0 <= i < |ms| => ms[i].body)
  }

  lemma OneMore(stream: Bytes, limit: nat, body: Bytes, rest: Bytes, n: nat, bodies: seq<Bytes>, end: Bytes)
    requires ReadFrame(stream, limit) == Frame(body, rest)
    requires ReadMany(rest, limit, n) == Some((bodies, end))
    ensures ReadMany(stream, limit, n + 1) == Some(([body] + bodies, end))
  {
  }

  lemma {:induction false} EncodeOneMore(m: Message, ms: seq<Message>, rest: Bytes)
    ensures EncodeAll([m] + ms) + rest == Encode(m) + (EncodeAll(ms) + rest)
    ensures Bodies([m] + ms) == [m.body] + Bodies(ms)
  {
    assert ([m] + ms)[1..] == ms;
    Associate(Encode(m), EncodeAll(ms), rest);
  }

  lemma Associate(a: Bytes, b: Bytes, c: Bytes)
    ensures a + b + c == a + (b + c)
  {
  }

  /** For every stream of well-formed frames of either kind, and whatever follows it, successive
      reads return the messages in order and then stand exactly at what follows. */
  lemma {:induction false} StreamReadsBack(ms: seq<Message>, rest: Bytes, limit: nat)
    requires forall m | m in ms :: WellFormed(m, limit)
    ensures ReadMany(EncodeAll(ms) + rest, limit, |ms|) == Some((Bodies(ms), rest))
  {
    if ms == [] {
      assert EncodeAll(ms) + rest == rest && Bodies(ms) == [];
    } else {
      var m, others := ms[0], ms[1..];
      assert ms == [m] + others;
      StreamReadsBack(others, rest, limit);
      EncodeOneMore(m, others, rest);
      var tail := EncodeAll(others) + rest;
      FrameReadsBack(m, tail, limit);
      OneMore(Encode(m) + tail, limit, m.body, tail, |others|, Bodies(others), rest);
    }
  }

  // ------------------------------------------------------------------------------------------
  // Deadlines
  // ------------------------------------------------------------------------------------------

  /** A frame with a length, line by line: its headers, and no line past them that is not blank. */
  lemma {:induction false} SizedLines(headers: seq<Bytes>, body: Bytes, rest: Bytes, limit: nat, lines: nat)
    requires WellFormed(Sized(headers, body), limit)
    ensures var stream := Encode(Sized(headers, body)) + rest;
            AfterLines(stream, limit, lines + 1)
            == if lines <= |headers| then Some(HeaderLines(headers[lines..]) + (body + rest)) else None
  {
    var stream := Encode(Sized(headers, body)) + rest;
    if lines == 0 {
      var digits := Decimal(|body|);
      var first := LENGTH_PREFIX + digits;
      ParseDecimal(|body|);
      assert stream == (first + [RETURN]) + [NEWLINE] + (HeaderLines(headers) + (body + rest));
      assert NEWLINE !in first by { assert forall b | b in digits :: IsDigit(b) by { DecimalIsDigits(|body|); } }
      LineReadsBack(first + [RETURN], HeaderLines(headers) + (body + rest), limit);
      assert Tight(first);
      StripReturn(first);
      assert AfterLines(stream, limit, 0) == Some(stream) && headers[0..] == headers;
    } else {
      SizedLines(headers, body, rest, limit, lines - 1);
      if lines - 1 < |headers| {
        HeaderLineReadsBack(headers[lines - 1..], body + rest, limit);
        assert headers[lines - 1..][1..] == headers[lines..];
      } else if lines - 1 == |headers| {
        BlankLineReadsBack(body + rest, limit);
        assert headers[|headers|..] == [];
      }
    }
  }

  lemma FurtherHeaderIsNoLength(h: Bytes, limit: nat)
    requires WellFormedHeader(h, limit)
    ensures !IsLengthHeader(h)
  {
    if IsLengthHeader(h) {
      var n := |CONTENT_LENGTH|;
      assert forall i | 0 <= i < n :: LowerByte(h[..n][i]) == CONTENT_LENGTH[i];
      FirstIsUnique(h, COLON, n);
      assert false;
    }
  }

  /** A torn frame: what is left starts with its k-th further header, or with the blank line, and
      the next read takes that for a message. */
  ghost predicate LeftAt(headers: seq<Bytes>, after: Bytes, limit: nat, left: Bytes, k: nat) {
    && k <= |headers|
    && left == HeaderLines(headers[k..]) + after
    && ReadFrame(left, limit) == if k < |headers| then Frame(headers[k], HeaderLines(headers[k + 1..]) + after) else Frame([], after)
  }

  lemma HeaderTakenForMessage(headers: seq<Bytes>, after: Bytes, limit: nat, k: nat)
    requires k <= |headers| && 0 < limit && forall h | h in headers :: WellFormedHeader(h, limit)
    ensures LeftAt(headers, after, limit, HeaderLines(headers[k..]) + after, k)
  {
    if k < |headers| {
      HeaderLineReadsBack(headers[k..], after, limit);
      FurtherHeaderIsNoLength(headers[k], limit);
      assert headers[k..][1..] == headers[k + 1..];
    } else {
      assert headers[k..] == [];
      BlankLineReadsBack(after, limit);
    }
  }

  lemma BlankBehindHeaders(headers: seq<Bytes>, after: Bytes, limit: nat, k: nat)
    requires k <= |headers| && 0 < limit && forall h | h in headers :: WellFormedHeader(h, limit)
    ensures var line := ReadLine(HeaderLines(headers[k..]) + after, limit);
            line.Line? && (Strip(line.line, false) == [] <==> k == |headers|) && (k == |headers| ==> line.rest == after)
  {
    if k < |headers| {
      HeaderLineReadsBack(headers[k..], after, limit);
    } else {
      assert headers[k..] == [];
      BlankLineReadsBack(after, limit);
    }
  }

  /** What the next read makes of a torn frame: the first header it still finds is taken for a
      message; so is the blank line, as an empty one; and once that is gone too, the body is read
      as if it were a frame itself. */
  lemma TornFrameReads(headers: seq<Bytes>, body: Bytes, rest: Bytes, limit: nat, left: Bytes) returns (k: nat)
    requires WellFormed(Sized(headers, body), limit) && Torn(Encode(Sized(headers, body)) + rest, limit, left)
    ensures left == body + rest || LeftAt(headers, body + rest, limit, left, k)
  {
    k := FirstLeft(Encode(Sized(headers, body)) + rest, limit, left);
    TornWithin(headers, body, rest, limit, left, k);
    HeaderTakenForMessage(headers, body + rest, limit, k);
  }

  lemma FirstLeft(stream: Bytes, limit: nat, left: Bytes) returns (k: nat)
    requires Torn(stream, limit, left)
    ensures TornAfter(stream, limit, k + 1, left)
  {
    var lines: nat :| 1 <= lines && TornAfter(stream, limit, lines, left);
    k := lines - 1;
  }

  lemma TornWithin(headers: seq<Bytes>, body: Bytes, rest: Bytes, limit: nat, left: Bytes, k: nat)
    requires WellFormed(Sized(headers, body), limit) && TornAfter(Encode(Sized(headers, body)) + rest, limit, k + 1, left)
    ensures k <= |headers| && (left == body + rest || left == HeaderLines(headers[k..]) + (body + rest))
  {
    SizedLines(headers, body, rest, limit, k);
    if k <= |headers| { BlankBehindHeaders(headers, body + rest, limit, k); }
  }

  /** A frame takes at least one byte more than its body. */
  lemma {:induction false} HeadersShrink(stream: Bytes, limit: nat, length: Bytes)
    ensures var r := ReadHeaders(stream, limit, length); r.Frame? ==> |r.body| + |r.rest| < |stream|
    decreases |stream|
  {
    match ReadLine(stream, limit)
    case Line(line, rest) =>
      var header := Strip(line, false);
      if header != [] && IndexOf(header, COLON).Some? {
        HeadersShrink(rest, limit, Override(header, IndexOf(header, COLON).value, length));
      }
    case _ =>
  }

  lemma {:induction false} StripShrinks(s: Bytes, text: bool)
    ensures |StripRight(s, text)| <= |s| && |StripLeft(s, text)| <= |s|
    decreases |s|
  {
    if s == [] {
    } else {
      StripShrinks(s[..|s| - 1], text);
      StripShrinks(s[1..], text);
    }
  }

  lemma FrameShrinks(stream: Bytes, limit: nat)
    ensures var r := ReadFrame(stream, limit); r.Frame? ==> |r.body| + |r.rest| < |stream|
  {
    match ReadLine(stream, limit)
    case Line(line, rest) =>
      StripShrinks(line, false);
      StripShrinks(StripRight(line, false), false);
      var first := Strip(line, false);
      if IsLengthHeader(first) { HeadersShrink(rest, limit, Strip(first[|CONTENT_LENGTH| + 1..], false)); }
    case _ =>
  }

  /** What a timed-out read leaves of a well-formed frame and what follows it. */
  ghost predicate LeftByTimeout(m: Message, rest: Bytes, limit: nat, left: Bytes) {
    left == Encode(m) + rest || Torn(Encode(m) + rest, limit, left)
  }

  /** Only a frame that announces its length can be torn. */
  lemma OneLineStartsNoLength(m: Message, rest: Bytes, limit: nat)
    requires WellFormed(m, limit) && m.OneLine?
    ensures !StartsSized(Encode(m) + rest, limit)
  {
    LineReadsBack(m.body, rest, limit);
  }

  /** After a timeout the next read returns the message, and stands behind it, exactly when the
      stream was left alone. */
  lemma ReadAgainIff(m: Message, rest: Bytes, limit: nat, left: Bytes)
    requires WellFormed(m, limit) && m.body != [] && LeftByTimeout(m, rest, limit, left)
    ensures ReadFrame(left, limit) == Frame(m.body, rest) <==> left == Encode(m) + rest
  {
    FrameReadsBack(m, rest, limit);
    if left != Encode(m) + rest {
      if m.OneLine? {
        OneLineStartsNoLength(m, rest, limit);
        assert false;
      } else {
        var _ := TornFrameReads(m.headers, m.body, rest, limit, left);
        FrameShrinks(m.body + rest, limit);
      }
    }
  }

  /** Where a stream stands between its messages: each read goes from one end to the next, and only
      a message that announces its length starts with one. */
  predicate Reads(ends: seq<Bytes>, ms: seq<Message>, limit: nat) {
    && |ends| == |ms| + 1
    && forall k | 0 <= k < |ms| ::
         ReadFrame(ends[k], limit) == Frame(ms[k].body, ends[k + 1]) && (StartsSized(ends[k], limit) ==> ms[k].Sized?)
  }

  function Ends(ms: seq<Message>, rest: Bytes): seq<Bytes> {
    seq(|ms| + 1, k requires 0 <= k <= |ms| => EncodeAll(ms[k..]) + rest)
  }

  lemma StreamReads(ms: seq<Message>, rest: Bytes, limit: nat)
    requires forall m | m in ms :: WellFormed(m, limit)
    ensures Reads(Ends(ms, rest), ms, limit)
  {
    forall k | 0 <= k < |ms|
      ensures ReadFrame(Ends(ms, rest)[k], limit) == Frame(ms[k].body, Ends(ms, rest)[k + 1])
      ensures StartsSized(Ends(ms, rest)[k], limit) ==> ms[k].Sized?
    {
      var after := EncodeAll(ms[k + 1..]) + rest;
      assert ms[k..] == [ms[k]] + ms[k + 1..];
      EncodeOneMore(ms[k], ms[k + 1..], rest);
      FrameReadsBack(ms[k], after, limit);
      if ms[k].OneLine? { OneLineStartsNoLength(ms[k], after, limit); }
    }
  }

  /** Up to the first torn frame everything read was right, and the reader stands behind it. */
  predicate InOrder(ms: seq<Message>, ends: seq<Bytes>, bodies: seq<Bytes>, torn: Option<nat>, pending: Bytes)
    requires |ends| == |ms| + 1
  {
    && |bodies| <= |ms|
    && match torn
       case None => bodies == Bodies(ms)[..|bodies|] && pending == ends[|bodies|]
       case Some(k) => k < |ms| && ms[k].Sized? && Bodies(ms)[..k] <= bodies
  }

  /** What one read gives, as its contract has it. */
  predicate ReadTo(limit: nat, before: Bytes, reply: Reply, after: Bytes) {
    match reply
    case TimedOut => after == before || StartsSized(before, limit)
    case _ => Agrees(reply, ReadFrame(before, limit)) && after == ReadFrame(before, limit).rest
  }

  lemma ReadInOrder(ms: seq<Message>, ends: seq<Bytes>, limit: nat, bodies: seq<Bytes>, torn: Option<nat>,
                    before: Bytes, reply: Reply, after: Bytes)
    requires Reads(ends, ms, limit) && |bodies| < |ms| && InOrder(ms, ends, bodies, torn, before)
    requires ReadTo(limit, before, reply, after)
    ensures var now := if torn.None? && reply.TimedOut? && after != before then Some(|bodies|) else torn;
            InOrder(ms, ends, if reply.Body? then bodies + [reply.body] else bodies, now, after)
    ensures torn.None? && !reply.TimedOut? ==> reply.Body? && |after| < |before|
  {
    var k := |bodies|;
    if torn.None? {
      assert Bodies(ms)[..k + 1] == Bodies(ms)[..k] + [ms[k].body];
      assert ReadFrame(before, limit) == Frame(ms[k].body, ends[k + 1]);
      FrameShrinks(before, limit);
    }
  }

  /** The reader at work, one deadline a read, going on after those that pass: the messages come in
      order, whatever chunks the bytes come in, and it stands at the end of the last one read, as
      long as no frame is torn; only one that announces its length can be, and up to the first
      that is everything read was right. With time enough for every read, all of them come. */
  method ReadSession(reader: Reader, patiences: seq<nat>, n: nat, ghost ms: seq<Message>, ghost ends: seq<Bytes>)
    returns (bodies: seq<Bytes>, ghost torn: Option<nat>)
    requires reader.Valid() && n == |ms| && Reads(ends, ms, reader.limit) && reader.Pending() == ends[0]
    modifies reader
    ensures reader.Valid() && |bodies| <= n
    ensures torn.None? ==> bodies == Bodies(ms)[..|bodies|] && reader.Pending() == ends[|bodies|]
    ensures torn.Some? ==> torn.value < n && ms[torn.value].Sized? && Bodies(ms)[..torn.value] <= bodies
    ensures (forall i | 0 <= i < |patiences| :: patiences[i] > |ends[0]|) && |patiences| >= n ==>
              bodies == Bodies(ms) && reader.Pending() == ends[n]
  {
    bodies, torn := [], None;
    ghost var prompt := forall i | 0 <= i < |patiences| :: patiences[i] > |ends[0]|;
    var i := 0;
    while i < |patiences| && |bodies| < n
      invariant 0 <= i <= |patiences| && reader.Valid() && InOrder(ms, ends, bodies, torn, reader.Pending())
      invariant prompt ==> torn.None? && |bodies| == i && |reader.Pending()| <= |ends[0]|
    {
      ghost var before := reader.Pending();
      var reply := reader.Read(patiences[i]);
      ReadInOrder(ms, ends, reader.limit, bodies, torn, before, reply, reader.Pending());
      if torn.None? && reply.TimedOut? && reader.Pending() != before { torn := Some(|bodies|); }
      if reply.Body? { bodies := bodies + [reply.body]; }
      i := i + 1;
    }
  }

  /** That, for a stream of well-formed frames of either kind and whatever follows it. */
  method ReadStream(reader: Reader, patiences: seq<nat>, n: nat, ghost ms: seq<Message>, ghost rest: Bytes)
    returns (bodies: seq<Bytes>, ghost torn: Option<nat>)
    requires reader.Valid() && n == |ms| && reader.Pending() == EncodeAll(ms) + rest
    requires forall m | m in ms :: WellFormed(m, reader.limit)
    modifies reader
    ensures reader.Valid() && |bodies| <= n
    ensures torn.None? ==> bodies == Bodies(ms[..|bodies|]) && reader.Pending() == EncodeAll(ms[|bodies|..]) + rest
    ensures torn.Some? ==> torn.value < n && ms[torn.value].Sized? && Bodies(ms[..torn.value]) <= bodies
    ensures (forall m | m in ms :: m.OneLine?) ==> torn.None?
    ensures (forall i | 0 <= i < |patiences| :: patiences[i] > |old(reader.Pending())|) && |patiences| >= n ==>
              bodies == Bodies(ms) && reader.Pending() == rest
  {
    StreamReads(ms, rest, reader.limit);
    assert ms[0..] == ms && ms[n..] == [] && [] + rest == rest;
    bodies, torn := ReadSession(reader, patiences, n, ms, Ends(ms, rest));
    BodiesOfPrefix(ms, |bodies|);
    if torn.Some? {
      BodiesOfPrefix(ms, torn.value);
      assert ms[torn.value] in ms;
    }
  }

  lemma BodiesOfPrefix(ms: seq<Message>, k: nat)
    requires k <= |ms|
    ensures Bodies(ms[..k]) == Bodies(ms)[..k]
  {
  }

  /** A torn frame in the making: the line that announces the length is there and nothing else
      comes before the deadline. The read leaves the blank line, and the next, however patient,
      takes it for an empty message. */
  method TearFrame(reader: Reader, ghost body: Bytes, ghost rest: Bytes) returns (first: Reply, second: Reply)
    requires reader.Valid() && WellFormed(Sized([], body), reader.limit) && body != []
    requires reader.buffer == LENGTH_PREFIX + Decimal(|body|) + [RETURN, NEWLINE]
    requires reader.unread == [RETURN, NEWLINE] + body + rest
    modifies reader
    ensures first == TimedOut && second == Body([]) && reader.Pending() == body + rest
  {
    ghost var blank := [RETURN, NEWLINE] + body + rest;
    assert reader.Pending() == Encode(Sized([], body)) + rest;
    FrameReadsBack(Sized([], body), rest, reader.limit);
    first := reader.Read(0);
    assert |reader.Pending()| >= |blank|;
    assert first.TimedOut?;
    assert reader.LineArrived();
    ghost var _ := TornFrameReads([], body, rest, reader.limit, reader.Pending());
    second := reader.Read(|reader.unread| + 1);
  }

  /** A JSON object on one line is such a frame: it opens and closes with a brace. */
  lemma JsonObjectIsOneLine(body: Bytes, limit: nat)
    requires 2 <= |body| <= limit && body[0] == 123 && body[|body| - 1] == 125 && NEWLINE !in body
    ensures WellFormed(OneLine(body), limit)
  {
    if |body| > |CONTENT_LENGTH| {
      assert Lower(body[..|CONTENT_LENGTH|])[0] == 123;
    }
  }

  /** The Content-Length has to come first: a header part that opens with any other header is
      taken for a one-line message, its first line the body. */
  lemma LengthHeaderMustComeFirst(header: Bytes, rest: Bytes, limit: nat)
    requires WellFormedHeader(header, limit) && !IsLengthHeader(header)
    ensures ReadFrame(header + [RETURN, NEWLINE] + rest, limit) == Frame(header, rest)
  {
    assert header + [RETURN, NEWLINE] + rest == (header + [RETURN]) + [NEWLINE] + rest;
    LineReadsBack(header + [RETURN], rest, limit);
    StripReturn(header);
  }
}
