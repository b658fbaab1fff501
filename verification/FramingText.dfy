/** What the framing of the MCP client (skynet/mcp.py) takes for whitespace, for a number and for the
    name of its length header, read off the bytes. */
module FramingText {
  import opened Options
  import opened Framing

  /** Tab, line feed, vertical tab, form feed, carriage return and space; in text the four separators too. */
  predicate White(b: Byte, text: bool) {
    || b == 9 || b == 10 || b == 11 || b == 12 || b == 13 || b == 32
    || (text && (b == 28 || b == 29 || b == 30 || b == 31))
  }

  lemma WhiteIff(b: Byte, text: bool)
    ensures IsSpace(b, text) <==> White(b, text)
  {
  }

  lemma {:induction false} StripRightIs(s: Bytes, text: bool) returns (k: nat)
    ensures k <= |s| && StripRight(s, text) == s[..k] && (k > 0 ==> !White(s[k - 1], text))
    ensures forall i | k <= i < |s| :: White(s[i], text)
  {
    k := |s|;
    if s != [] {
      WhiteIff(s[|s| - 1], text);
      if IsSpace(s[|s| - 1], text) { k := StripRightIs(s[..|s| - 1], text); }
    }
  }

  lemma {:induction false} StripLeftIs(s: Bytes, text: bool) returns (j: nat)
    ensures j <= |s| && StripLeft(s, text) == s[j..] && (j < |s| ==> !White(s[j], text))
    ensures forall i | 0 <= i < j :: White(s[i], text)
  {
    j := 0;
    if s != [] {
      WhiteIff(s[0], text);
      if IsSpace(s[0], text) {
        j := StripLeftIs(s[1..], text);
        j := j + 1;
        assert forall i | 1 <= i < j :: s[i] == s[1..][i - 1];
      }
    }
  }

  /** All but the whitespace before the first and behind the last byte that is none. */
  predicate Bare(s: Bytes, bare: Bytes, j: nat, k: nat, text: bool) {
    && j <= k <= |s| && bare == s[j..k]
    && (forall i | 0 <= i < j :: White(s[i], text)) && (forall i | k <= i < |s| :: White(s[i], text))
    && (j < k ==> !White(s[j], text) && !White(s[k - 1], text))
  }

  lemma BareOfBoth(s: Bytes, right: Bytes, left: Bytes, j: nat, k: nat, text: bool)
    requires j <= k <= |s| && right == s[..k] && left == right[j..]
    requires forall i | k <= i < |s| :: White(s[i], text)
    requires forall i | 0 <= i < j :: White(right[i], text)
    requires (k > 0 ==> !White(s[k - 1], text)) && (j < k ==> !White(right[j], text))
    ensures Bare(s, left, j, k, text)
  {
    forall i | 0 <= i < j ensures White(s[i], text) {
      assert White(right[i], text);
    }
  }

  /** Stripping takes exactly the whitespace at both ends. */
  lemma StripIs(s: Bytes, text: bool) returns (j: nat, k: nat)
    ensures Bare(s, Strip(s, text), j, k, text)
  {
    k := StripRightIs(s, text);
    j := StripLeftIs(s[..k], text);
    BareOfBoth(s, s[..k], Strip(s, text), j, k, text);
  }

  // ------------------------------------------------------------------------------------------
  // Numbers
  // ------------------------------------------------------------------------------------------

  /** The digits 0 to 9 in ASCII. */
  predicate Digit(b: Byte) {
    48 <= b < 58
  }

  /** Digits with underscores between them, never two in a row. */
  predicate Numeral(s: Bytes) {
    && s != [] && Digit(s[0]) && Digit(s[|s| - 1])
    && (forall i | 0 <= i < |s| :: Digit(s[i]) || s[i] == 95)
    && forall i | 0 < i < |s| :: Digit(s[i - 1]) || Digit(s[i])
  }

  /** Its value: the digits alone, in base ten. */
  function Value(s: Bytes): int {
    if s == [] then 0
    else if Digit(s[|s| - 1]) then 10 * Value(s[..|s| - 1]) + s[|s| - 1] - 48
    else Value(s[..|s| - 1])
  }

  lemma {:induction false} NumeralIff(s: Bytes)
    ensures DigitsValue(s).Some? <==> Numeral(s)
    ensures Numeral(s) ==> DigitsValue(s) == Some(Value(s))
  {
    var n := |s|;
    if n > 1 && Digit(s[n - 1]) {
      var front := if s[n - 2] == UNDERSCORE then s[..n - 2] else s[..n - 1];
      NumeralIff(front);
      assert forall i | 0 <= i < |front| :: front[i] == s[i];
      if s[n - 2] == UNDERSCORE {
        assert s[..n - 1][..n - 2] == front;
        assert Numeral(s) ==> Digit(s[n - 3]);
      }
    } else if n == 1 {
      assert s[..0] == [];
    }
  }

  /** A number is a numeral between whitespace, with at most one sign before it; nothing else is. */
  lemma NumberIs(s: Bytes)
    ensures var t := Strip(s, true);
            var signed := t != [] && (t[0] == 43 || t[0] == 45);
            var digits := if signed then t[1..] else t;
            ParseInt(s) == if !Numeral(digits) then None else if signed && t[0] == 45 then Some(-Value(digits)) else Some(Value(digits))
  {
    var t := Strip(s, true);
    NumeralIff(t);
    if t != [] { NumeralIff(t[1..]); }
  }

  // ------------------------------------------------------------------------------------------
  // The length header
  // ------------------------------------------------------------------------------------------

  /** The header's name is `content-length` with its letters in either case, and a colon behind it. */
  lemma LengthHeaderIff(line: Bytes)
    ensures IsLengthHeader(line) <==>
      |line| > 14 && line[14] == 58 && forall i | 0 <= i < 14 :: line[i] == CONTENT_LENGTH[i] || (i != 7 && line[i] == CONTENT_LENGTH[i] - 32)
  {
    if |line| > 14 {
      var name := line[..14];
      forall i | 0 <= i < 14
        ensures LowerByte(name[i]) == CONTENT_LENGTH[i] <==> name[i] == CONTENT_LENGTH[i] || (i != 7 && name[i] == CONTENT_LENGTH[i] - 32)
      {
      }
      if forall i | 0 <= i < 14 :: LowerByte(name[i]) == CONTENT_LENGTH[i] { assert Lower(name) == CONTENT_LENGTH; }
      if Lower(name) == CONTENT_LENGTH { assert forall i | 0 <= i < 14 :: LowerByte(name[i]) == Lower(name)[i]; }
    }
  }

  // ------------------------------------------------------------------------------------------
  // Lines and headers
  // ------------------------------------------------------------------------------------------

  /** A line is what comes before the first line feed, if that is no more than the limit; past the
      limit without one the stream is refused, and short of it there is no line yet. */
  lemma LineIff(stream: Bytes, limit: nat, line: Bytes, rest: Bytes)
    ensures ReadLine(stream, limit) == Line(line, rest) <==> stream == line + [10] + rest && 10 !in line && |line| <= limit
    ensures ReadLine(stream, limit).NoLine? <==> |stream| <= limit && 10 !in stream
    ensures ReadLine(stream, limit).TooLong? <==> |stream| > limit && 10 !in stream[..limit + 1]
  {
    if stream == line + [10] + rest { assert stream[|line|] == 10 && stream[..|line|] == line; }
    if IndexOf(stream, NEWLINE).Some? {
      var p := IndexOf(stream, NEWLINE).value;
      assert stream == stream[..p] + [10] + stream[p + 1..];
      if p > limit {
        assert forall i | 0 <= i <= limit :: stream[i] == stream[..p][i];
      } else if |stream| > limit {
        assert stream[..limit + 1][p] == 10;
      }
      if stream == line + [10] + rest && 10 !in line {
        FirstIsUnique(stream, NEWLINE, |line|);
        assert stream[p + 1..] == rest;
      }
    }
  }

  /** A length with a byte outside ASCII is refused where its line ends. */
  lemma OddLengthIsRefused(line: Bytes, rest: Bytes, limit: nat, value: Bytes)
    requires 10 !in line && |line| <= limit && IsLengthHeader(Strip(line, false))
    requires value == Strip(Strip(line, false)[15..], false) && exists b :: b in value && b >= 128
    ensures ReadFrame(line + [10] + rest, limit) == Bad(rest)
  {
    LineIff(line + [10] + rest, limit, line, rest);
  }

  /** A further header of that name, in either case, replaces the length; any other header with a
      colon is passed over, and one without is refused. */
  lemma FurtherHeader(line: Bytes, rest: Bytes, limit: nat, length: Bytes, name: Bytes, value: Bytes)
    requires 10 !in line && |line| <= limit && Strip(line, false) != []
    ensures 58 !in Strip(line, false) ==> ReadHeaders(line + [10] + rest, limit, length) == Bad(rest)
    ensures Strip(line, false) == name + [58] + value && 58 !in name ==>
              ReadHeaders(line + [10] + rest, limit, length)
                == ReadHeaders(rest, limit, if Strip(Lower(name), true) == CONTENT_LENGTH then Strip(value, true) else length)
  {
    LineIff(line + [10] + rest, limit, line, rest);
    var header := Strip(line, false);
    if header == name + [58] + value && 58 !in name {
      assert header[|name|] == 58 && header[..|name|] == name && header[|name| + 1..] == value;
      FirstIsUnique(header, COLON, |name|);
    }
  }
}
