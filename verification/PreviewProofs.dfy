/** The tail of the bounded preview (skynet/react.py) read off the content: which lines it shows. */
module PreviewProofs {
  import opened Preview

  /** An escaped newline begins at place i: a backslash and the letter n. */
  predicate NewlineAt(s: string, i: int) {
    0 <= i < |s| - 1 && s[i] == '\\' && s[i + 1] == 'n'
  }

  ghost predicate Unbroken(s: string) {
    forall i :: !NewlineAt(s, i)
  }

  // ------------------------------------------------------------------------------------------
  // The split
  // ------------------------------------------------------------------------------------------

  lemma NewlineIs(s: string)
    ensures |s| >= 2 && s[..2] == NEWLINE <==> NewlineAt(s, 0)
  {
  }

  /** No piece holds an escaped newline. */
  lemma {:induction false} PiecesAreUnbroken(s: string, piece: string)
    requires Unbroken(piece) && !(piece != "" && piece[|piece| - 1] == '\\' && s != "" && s[0] == 'n')
    ensures forall p | p in Split(s, piece) :: Unbroken(p)
    decreases |s|
  {
    NewlineIs(s);
    if s == [] {
    } else if NewlineAt(s, 0) {
      PiecesAreUnbroken(s[2..], "");
    } else {
      var longer := piece + [s[0]];
      forall i ensures !NewlineAt(longer, i) {
        assert !NewlineAt(piece, i);
      }
      PiecesAreUnbroken(s[1..], longer);
    }
  }

  lemma {:induction false} SplitSkips(first: string, rest: string, piece: string)
    requires Unbroken(first) && (rest == "" || NewlineAt(rest, 0))
    ensures Split(first + rest, piece) == [piece + first] + (if rest == "" then [] else Split(rest[2..], ""))
    decreases |first|
  {
    NewlineIs(first + rest);
    if first == "" {
      assert first + rest == rest && piece + first == piece;
    } else {
      var tail := first[1..];
      forall i ensures !NewlineAt(tail, i) {
        assert !NewlineAt(first, i + 1);
      }
      assert !NewlineAt(first, 0);
      SplitSkips(tail, rest, piece + [first[0]]);
      assert (first + rest)[1..] == tail + rest;
      assert piece + [first[0]] + tail == piece + first;
    }
  }

  /** The pieces are the only ones without an escaped newline that join to the content. */
  lemma {:induction false} SplitIsUnique(pieces: seq<string>)
    requires pieces != [] && forall p | p in pieces :: Unbroken(p)
    ensures Split(Join(pieces)) == pieces
    decreases |pieces|
  {
    var rest := if |pieces| == 1 then "" else NEWLINE + Join(pieces[1..]);
    assert pieces[0] + rest == Join(pieces);
    SplitSkips(pieces[0], rest, "");
    assert "" + pieces[0] == pieces[0];
    if |pieces| == 1 {
      assert pieces == [pieces[0]];
    } else {
      SplitIsUnique(pieces[1..]);
      assert rest[2..] == Join(pieces[1..]);
    }
  }

  // ------------------------------------------------------------------------------------------
  // Lines of the content
  // ------------------------------------------------------------------------------------------

  function Newlines(s: string): nat {
    if |s| < 2 then 0 else Newlines(s[1..]) + if NewlineAt(s, 0) then 1 else 0
  }

  /** A line of the content begins at place q. */
  predicate LineStart(s: string, q: int) {
    0 <= q <= |s| && (q == 0 || NewlineAt(s, q - 2))
  }

  lemma UnbrokenRest(p: string)
    requires Unbroken(p) && p != ""
    ensures Unbroken(p[1..])
  {
    forall i ensures !NewlineAt(p[1..], i) {
      assert !NewlineAt(p, i + 1);
    }
  }

  lemma {:induction false} NewlinesPast(p: string, rest: string)
    requires Unbroken(p)
    ensures Newlines(p) == 0 && Newlines(p + NEWLINE + rest) == 1 + Newlines(rest)
  {
    var s := p + NEWLINE + rest;
    if p == "" {
      assert s == NEWLINE + rest && s[1..][1..] == rest && !NewlineAt(s[1..], 0);
    } else {
      UnbrokenRest(p);
      NewlinesPast(p[1..], rest);
      assert s[1..] == p[1..] + NEWLINE + rest;
      assert !NewlineAt(p, 0) && !NewlineAt(s, 0);
    }
  }

  lemma {:induction false} NewlinesOfJoin(pieces: seq<string>)
    requires pieces != [] && forall p | p in pieces :: Unbroken(p)
    ensures Newlines(Join(pieces)) == |pieces| - 1
  {
    if |pieces| == 1 {
      NewlinesPast(pieces[0], "");
    } else {
      NewlinesOfJoin(pieces[1..]);
      NewlinesPast(pieces[0], Join(pieces[1..]));
    }
  }

  lemma NewlinePastPiece(p: string, rest: string, i: int)
    requires Unbroken(p)
    ensures NewlineAt(p + NEWLINE + rest, i) <==> i == |p| || NewlineAt(rest, i - |p| - 2)
  {
    var s := p + NEWLINE + rest;
    assert !NewlineAt(p, i);
    assert s[|p|] == '\\' && s[|p| + 1] == 'n';
    if i > |p| + 1 && i < |s| - 1 {
      assert s[i] == rest[i - |p| - 2] && s[i + 1] == rest[i - |p| - 1];
    }
  }

  /** Where the k-th piece begins. */
  function Offset(pieces: seq<string>, k: nat): int
    requires k < |pieces|
  {
    |Join(pieces)| - |Join(pieces[k..])|
  }

  /** Lines begin where pieces do, and the content from there is those pieces joined. */
  lemma {:induction false} PieceStartsLine(pieces: seq<string>, k: nat)
    requires k < |pieces| && forall p | p in pieces :: Unbroken(p)
    ensures LineStart(Join(pieces), Offset(pieces, k))
    ensures Join(pieces)[Offset(pieces, k)..] == Join(pieces[k..])
    decreases k
  {
    if k == 0 {
      assert pieces[0..] == pieces;
    } else {
      var rest := pieces[1..];
      PieceStartsLine(rest, k - 1);
      assert rest[k - 1..] == pieces[k..];
      NewlinePastPiece(pieces[0], Join(rest), Offset(pieces, k) - 2);
      assert Join(pieces) == pieces[0] + NEWLINE + Join(rest);
    }
  }

  lemma {:induction false} LineStartsPiece(pieces: seq<string>, q: int) returns (k: nat)
    requires pieces != [] && (forall p | p in pieces :: Unbroken(p)) && LineStart(Join(pieces), q)
    ensures k < |pieces| && q == Offset(pieces, k)
    decreases |pieces|
  {
    if q == 0 {
      assert pieces[0..] == pieces;
      return 0;
    }
    assert pieces[0] in pieces && !NewlineAt(pieces[0], q - 2);
    if |pieces| > 1 {
      var rest := pieces[1..];
      NewlinePastPiece(pieces[0], Join(rest), q - 2);
      k := LineStartsPiece(rest, q - |pieces[0]| - 2);
      assert rest[k..] == pieces[k + 1..];
      k := k + 1;
    }
  }

  // ------------------------------------------------------------------------------------------
  // The tail
  // ------------------------------------------------------------------------------------------

  /** The content from the line at q on is no more than the lines asked for, and with one more
      newline within a quarter of the limit. */
  predicate Showable(content: string, limit: nat, tailLines: nat, q: int) {
    LineStart(content, q) && Newlines(content[q..]) < tailLines && |content| - q + 2 <= limit / 4
  }

  lemma ShowableIff(content: string, limit: nat, tailLines: nat, k: nat)
    requires k < |Split(content)|
    ensures var lines := Lines(Split(content)[k..]);
            var q := |content| + 2 - |lines|;
            && 0 <= q <= |content| && q == Offset(Split(content), k) && content[q..] + NEWLINE == lines
            && (Showable(content, limit, tailLines, q) <==> |Split(content)| - k <= tailLines && |lines| <= limit / 4)
  {
    var pieces := Split(content);
    SplitJoinsBack(content);
    PiecesAreUnbroken(content, "");
    PieceStartsLine(pieces, k);
    NewlinesOfJoin(pieces[k..]);
    LinesAreJoined(pieces[k..]);
  }

  lemma {:induction false} LaterIsShorter(pieces: seq<string>, j: nat, k: nat)
    requires j <= k <= |pieces|
    ensures |Lines(pieces[k..])| <= |Lines(pieces[j..])|
    decreases k - j
  {
    if j < k {
      LaterIsShorter(pieces, j + 1, k);
      assert pieces[j..][1..] == pieces[j + 1..];
    }
  }

  /** The tail on the content itself: from the first line on from which what is left is no more than
      the lines asked for and fits a quarter of the limit, and nothing if there is no such line. */
  lemma {:induction false} TailIsLongest(content: string, limit: nat, tailLines: nat)
    requires limit >= 4
    ensures var tail := TailOf(content, limit, tailLines);
            && (tail == "" <==> forall q :: !Showable(content, limit, tailLines, q))
            && (tail != "" ==>
                  var from := |content| + 2 - |tail|;
                  && Showable(content, limit, tailLines, from) && tail == content[from..] + NEWLINE
                  && forall q | q < from :: !Showable(content, limit, tailLines, q))
  {
    var pieces := Split(content);
    var j := TailOfIsLines(content, limit, tailLines);
    forall q | Showable(content, limit, tailLines, q) ensures j < |pieces| && |content| + 2 - q <= |Lines(pieces[j..])| {
      NoLineEarlier(content, limit, tailLines, j, q);
    }
    if j < |pieces| {
      ShowableIff(content, limit, tailLines, j);
    }
  }

  lemma NoLineEarlier(content: string, limit: nat, tailLines: nat, j: nat, q: int)
    requires j <= |Split(content)| && Showable(content, limit, tailLines, q)
    requires j > 0 && |Split(content)| - j < tailLines ==> |Lines(Split(content)[j - 1..])| > limit / 4
    ensures j < |Split(content)| && |content| + 2 - q <= |Lines(Split(content)[j..])|
  {
    var pieces := Split(content);
    SplitJoinsBack(content);
    PiecesAreUnbroken(content, "");
    var k := LineStartsPiece(pieces, q);
    ShowableIff(content, limit, tailLines, k);
    if k < j {
      LaterIsShorter(pieces, k, j - 1);
    } else {
      LaterIsShorter(pieces, j, k);
    }
  }
}
