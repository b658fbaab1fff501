/** The bounded preview of a tool result (skynet/react.py): a head, a marker that says how much
    was left out, and the last lines. */
module Preview {
  const MIN_TAIL_PREVIEW_CHARS := 128

  /** `json.dumps("\n")[1:-1]`: the two characters of an escaped newline. */
  const NEWLINE := "\\n"

  // ------------------------------------------------------------------------------------------
  // Text
  // ------------------------------------------------------------------------------------------

  function Decimal(n: nat): (s: string)
    ensures s != []
  {
    if n < 10 then [('0' as int + n) as char] else Decimal(n / 10) + [('0' as int + n % 10) as char]
  }

  /** `content.split("\\n")`, leftmost first. */
  function Split(s: string, piece: string := ""): (pieces: seq<string>)
    ensures pieces != []
    decreases |s|
  {
    if s == [] then [piece]
    else if |s| >= 2 && s[..2] == NEWLINE then [piece] + Split(s[2..], "")
    else Split(s[1..], piece + [s[0]])
  }

  function Join(pieces: seq<string>): string
    requires pieces != []
  {
    if |pieces| == 1 then pieces[0] else pieces[0] + NEWLINE + Join(pieces[1..])
  }

  function Prefix(s: string, n: nat): string {
    if n <= |s| then s[..n] else s
  }

  function Max(a: int, b: int): int {
    if a >= b then a else b
  }

  // ------------------------------------------------------------------------------------------
  // The preview
  // ------------------------------------------------------------------------------------------

  function Marker(elided: int): string {
    "...[" + Decimal(Max(0, elided)) + " chars elided]..."
  }

  /** The pieces the tail may draw on. */
  function LastPieces(content: string, tailLines: nat): seq<string> {
    var pieces := Split(content);
    if |pieces| > tailLines then pieces[|pieces| - tailLines..] else pieces
  }

  /** Whole lines from the end, each with its newline, as long as they fit the budget. */
  function Tail(pieces: seq<string>, budget: nat, tail: string := ""): string
    decreases |pieces|
  {
    if pieces == [] then tail
    else
      var candidate := pieces[|pieces| - 1] + NEWLINE;
      if |candidate| > budget || |tail| + |candidate| > budget then tail
      else Tail(pieces[..|pieces| - 1], budget, candidate + tail)
  }

  function TailOf(content: string, limit: nat, tailLines: nat): string {
    Tail(LastPieces(content, tailLines), Max(1, limit / 4))
  }

  function Elided(length: nat, limit: nat, marker: string, tail: string): int {
    length - (limit - |marker| - |tail|) - |tail|
  }

  /** One round of the marker loop: the marker for the length the last marker leaves. */
  function Round(length: nat, limit: nat, marker: string, tail: string): string {
    Marker(Elided(length, limit, marker, tail))
  }

  function Rounds(length: nat, limit: nat, tail: string, rounds: nat): string {
    if rounds == 0 then "" else Round(length, limit, Rounds(length, limit, tail, rounds - 1), tail)
  }

  function FinalMarker(length: nat, limit: nat, tail: string): string {
    Rounds(length, limit, tail, 3)
  }

  method BoundedPreview(content: string, limit: nat, tailLines: int) returns (preview: string)
    ensures |preview| <= limit
    ensures |content| <= limit ==> preview == content
    ensures |content| > limit && (tailLines <= 0 || limit < MIN_TAIL_PREVIEW_CHARS) ==> preview == content[..limit]
    ensures |content| > limit && tailLines > 0 && limit >= MIN_TAIL_PREVIEW_CHARS ==>
              var tail := TailOf(content, limit, tailLines);
              var marker := FinalMarker(|content|, limit, tail);
              var head := limit - |marker| - |tail|;
              preview == if tail == "" || head < 1 then content[..limit] else content[..head] + marker + tail
  {
    if |content| <= limit || tailLines <= 0 || limit < MIN_TAIL_PREVIEW_CHARS {
      return Prefix(content, limit);
    }
    var budget := Max(1, limit / 4);
    var pieces := LastPieces(content, tailLines);
    var tail := "";
    var n := |pieces|;
    assert pieces[..n] == pieces;
    while n > 0
      invariant 0 <= n <= |pieces|
      invariant Tail(pieces[..n], budget, tail) == Tail(pieces, budget)
    {
      var candidate := pieces[n - 1] + NEWLINE;
      assert pieces[..n][..n - 1] == pieces[..n - 1];
      if |candidate| > budget || |tail| + |candidate| > budget {
        break;
      }
      tail := candidate + tail;
      n := n - 1;
    }
    if tail == "" {
      return content[..limit];
    }
    var marker := "";
    for round := 0 to 3
      invariant marker == Rounds(|content|, limit, tail, round)
    {
      var elided := |content| - (limit - |marker| - |tail|) - |tail|;
      marker := Marker(elided);
    }
    var head := limit - |marker| - |tail|;
    if head < 1 {
      return content[..limit];
    }
    preview := content[..head] + marker + tail;
    if |preview| > limit {
      preview := content[..limit];
    }
  }

  // ------------------------------------------------------------------------------------------
  // The number in the marker
  // ------------------------------------------------------------------------------------------

  lemma {:induction false} DigitsGrow(a: nat, b: nat)
    requires a <= b
    ensures |Decimal(a)| <= |Decimal(b)|
  {
    if b < 10 || a < 10 {
    } else {
      DigitsGrow(a / 10, b / 10);
    }
  }

  lemma {:induction false} DigitsAtMost(n: nat)
    requires n > 0
    ensures |Decimal(n)| <= n
  {
    if n < 10 {
    } else {
      DigitsAtMost(n / 10);
    }
  }

  /** The marker adds at most one digit to its own number, once: for an excess of `d` characters
      the number is settled after two rounds. */
  lemma DigitsSettle(d: nat)
    requires d > 0
    ensures var second := d + 21 + |Decimal(d)|;
            |Decimal(d + 21 + |Decimal(second)|)| == |Decimal(second)|
  {
    var second := d + 21 + |Decimal(d)|;
    DigitsAtMost(d);
    DigitsGrow(d, second);
    if d > 1 {
      DigitsGrow(second, 10 * d + 9);
      DigitsGrow(second, second + 1);
      DigitsGrow(second + 1, 10 * d + 9);
      OneMoreDigit(d, 9);
    }
  }

  lemma OneMoreDigit(n: nat, digit: nat)
    requires n > 0 && digit < 10
    ensures |Decimal(10 * n + digit)| == |Decimal(n)| + 1
  {
    assert (10 * n + digit) / 10 == n;
  }

  /** After its three rounds the marker is settled: the number it prints is exactly what the cut
      leaves between the head and the tail, and one more round would print the same. */
  lemma MarkerIsSettled(length: nat, limit: nat, tail: string)
    requires length > limit
    ensures var marker := FinalMarker(length, limit, tail);
            Round(length, limit, marker, tail) == marker
  {
    var d := length - limit;
    var none, first := Rounds(length, limit, tail, 0), Rounds(length, limit, tail, 1);
    var second, third := Rounds(length, limit, tail, 2), Rounds(length, limit, tail, 3);
    LengthsSettle(d, |first|, |second|, |third|);
  }

  lemma LengthsSettle(d: nat, a: nat, b: nat, c: nat)
    requires d > 0
    requires a == 21 + |Decimal(d)| && b == 21 + |Decimal(d + a)| && c == 21 + |Decimal(d + b)|
    ensures b == c
  {
    DigitsSettle(d);
  }

  // ------------------------------------------------------------------------------------------
  // The tail
  // ------------------------------------------------------------------------------------------

  lemma {:induction false} SplitJoins(s: string, piece: string)
    ensures Join(Split(s, piece)) == piece + s
    decreases |s|
  {
    if s == [] {
    } else if |s| >= 2 && s[..2] == NEWLINE {
      SplitJoins(s[2..], "");
      assert s == NEWLINE + s[2..];
      assert Split(s, piece)[1..] == Split(s[2..], "");
      assert piece + s == piece + NEWLINE + s[2..];
    } else {
      SplitJoins(s[1..], piece + [s[0]]);
      assert piece + [s[0]] + s[1..] == piece + s;
    }
  }

  /** Lines as the tail puts them together, a newline after each. */
  function Lines(pieces: seq<string>): string {
    if pieces == [] then "" else pieces[0] + NEWLINE + Lines(pieces[1..])
  }

  lemma {:induction false} LinesAreJoined(pieces: seq<string>)
    requires pieces != []
    ensures Lines(pieces) == Join(pieces) + NEWLINE
  {
    if |pieces| > 1 {
      LinesAreJoined(pieces[1..]);
      assert pieces[0] + NEWLINE + (Join(pieces[1..]) + NEWLINE) == (pieces[0] + NEWLINE + Join(pieces[1..])) + NEWLINE;
    } else {
      assert pieces[1..] == [];
      assert pieces[0] + NEWLINE + "" == pieces[0] + NEWLINE;
    }
  }

  lemma {:induction false} JoinOfSuffix(pieces: seq<string>, j: nat)
    requires j < |pieces|
    ensures exists before :: Join(pieces) == before + Join(pieces[j..])
  {
    if j == 0 {
      assert pieces[0..] == pieces;
      assert Join(pieces) == "" + Join(pieces[0..]);
    } else {
      JoinOfSuffix(pieces[1..], j - 1);
      assert pieces[1..][j - 1..] == pieces[j..];
      var before :| Join(pieces[1..]) == before + Join(pieces[j..]);
      assert Join(pieces) == (pieces[0] + NEWLINE + before) + Join(pieces[j..]);
    }
  }

  /** The tail is the last lines, from some line j on: as many as the budget has room for. */
  lemma {:induction false} TailIsLastLines(pieces: seq<string>, budget: nat, tail: string) returns (j: nat)
    ensures j <= |pieces| && Tail(pieces, budget, tail) == Lines(pieces[j..]) + tail
    ensures |tail| <= budget ==> |Tail(pieces, budget, tail)| <= budget
    ensures j > 0 ==> |Lines(pieces[j - 1..]) + tail| > budget
    decreases |pieces|
  {
    j := |pieces|;
    assert pieces[j..] == [];
    if pieces == [] { return; }
    var last := pieces[j - 1] + NEWLINE;
    assert Lines(pieces[j - 1..]) == last + "" by { assert pieces[j - 1..][1..] == []; }
    if |last| > budget || |tail| + |last| > budget { return; }
    var front := pieces[..j - 1];
    j := TailIsLastLines(front, budget, last + tail);
    LinesOfSuffix(pieces, j);
    if j > 0 { LinesOfSuffix(pieces, j - 1); }
    assert Lines(front[j..]) + (last + tail) == (Lines(front[j..]) + last) + tail;
  }

  lemma {:induction false} LinesOfSuffix(pieces: seq<string>, j: nat)
    requires j < |pieces|
    ensures Lines(pieces[j..]) == Lines(pieces[..|pieces| - 1][j..]) + (pieces[|pieces| - 1] + NEWLINE)
    decreases |pieces| - j
  {
    var n := |pieces| - 1;
    assert pieces[j..][1..] == pieces[j + 1..];
    if j < n {
      LinesOfSuffix(pieces, j + 1);
      assert pieces[..n][j..][1..] == pieces[..n][j + 1..];
      assert pieces[j] + NEWLINE + (Lines(pieces[..n][j + 1..]) + (pieces[n] + NEWLINE))
          == (pieces[j] + NEWLINE + Lines(pieces[..n][j + 1..])) + (pieces[n] + NEWLINE);
    } else {
      assert pieces[..n][j..] == [];
      assert pieces[j] + NEWLINE + "" == "" + (pieces[n] + NEWLINE);
    }
  }

  /** Whole lines from line k on, no more of them than asked for, within a quarter of the limit;
      and where fewer are shown than asked for, one more would not fit. */
  lemma TailOfIsLines(content: string, limit: nat, tailLines: nat) returns (k: nat)
    requires limit >= 4
    ensures k <= |Split(content)| && TailOf(content, limit, tailLines) == Lines(Split(content)[k..])
    ensures |TailOf(content, limit, tailLines)| <= limit / 4 && |Split(content)| - k <= tailLines
    ensures k > 0 && |Split(content)| - k < tailLines ==> |Lines(Split(content)[k - 1..])| > limit / 4
  {
    var pieces, last := Split(content), LastPieces(content, tailLines);
    var from: nat := if |pieces| > tailLines then |pieces| - tailLines else 0;
    var j := TailIsLastLines(last, Max(1, limit / 4), "");
    k := from + j;
    assert last[j..] == pieces[k..];
    if j > 0 {
      assert last[j - 1..] == pieces[k - 1..];
      assert Lines(last[j - 1..]) + "" == Lines(last[j - 1..]);
    }
  }

  lemma SplitJoinsBack(content: string)
    ensures Join(Split(content)) == content
  {
    SplitJoins(content, "");
    assert "" + content == content;
  }

  /** A tail that is shown is the very end of the content with one newline added, within a
      quarter of the limit. */
  lemma TailIsTheEnd(content: string, limit: nat, tailLines: nat)
    requires limit >= 4 && TailOf(content, limit, tailLines) != ""
    ensures var tail := TailOf(content, limit, tailLines);
            && 2 <= |tail| <= limit / 4
            && |tail| - 2 <= |content|
            && tail == content[|content| - (|tail| - 2)..] + NEWLINE
  {
    var k := TailOfIsLines(content, limit, tailLines);
    SplitJoinsBack(content);
    LastLinesEndContent(content, Split(content), k, TailOf(content, limit, tailLines));
  }

  lemma {:induction false} LastLinesEndContent(content: string, pieces: seq<string>, k: nat, tail: string)
    requires k <= |pieces| && pieces != [] && Join(pieces) == content && tail == Lines(pieces[k..]) && tail != ""
    ensures 2 <= |tail| && |tail| - 2 <= |content| && tail == content[|content| - (|tail| - 2)..] + NEWLINE
  {
    LinesAreJoined(pieces[k..]);
    JoinOfSuffix(pieces, k);
    var before :| Join(pieces) == before + Join(pieces[k..]);
    assert content[|before|..] == Join(pieces[k..]);
  }

  /** What an elided preview shows is the content's first `head` characters and its last
      |tail| - 2; so what is really left out is two characters more than the marker says. */
  lemma MarkerFallsTwoShort(content: string, limit: nat, tailLines: nat)
    requires |content| > limit >= MIN_TAIL_PREVIEW_CHARS && TailOf(content, limit, tailLines) != ""
    ensures var tail := TailOf(content, limit, tailLines);
            var marker := FinalMarker(|content|, limit, tail);
            var head := limit - |marker| - |tail|;
            var omitted := |content| - head - (|tail| - 2);
            head >= 1 ==> marker == Marker(omitted - 2) && omitted > 2 && |content[..head] + marker + tail| == limit
  {
    MarkerIsSettled(|content|, limit, TailOf(content, limit, tailLines));
    TailIsTheEnd(content, limit, tailLines);
  }
}
