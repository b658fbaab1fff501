/** Fitting memory input into its budget (skynet/memory.py): newest rows first, an oversized newest
    row shortened. A row is its encoded size, with its text fields kept apart. */
module MemoryBudget {
  import opened Options
  import opened Preview

  /** How many characters each character of a text becomes when it is encoded. */
  type Width = char -> nat

  /** Every character is encoded as at least one. */
  ghost predicate Expands(width: Width) {
    forall c: char :: width(c) >= 1
  }

  /** A row: its text fields in the order content, payload, report, text, and the encoded size of
      everything else between its braces. Or the shape that stands for a row that could not be shortened. */
  datatype Entry = Row(id: int, rest: nat, texts: seq<Option<string>>) | Shape(kind: string, omitted: nat)

  // ------------------------------------------------------------------------------------------
  // Encoded sizes
  // ------------------------------------------------------------------------------------------

  function Wide(s: string, width: Width): nat {
    if s == "" then 0 else Wide(s[..|s| - 1], width) + width(s[|s| - 1])
  }

  function FieldSize(field: Option<string>, width: Width): nat {
    match field
    case None => 0
    case Some(s) => 2 + Wide(s, width)
  }

  function FieldSizes(texts: seq<Option<string>>, width: Width): nat {
    if texts == [] then 0 else FieldSizes(texts[..|texts| - 1], width) + FieldSize(texts[|texts| - 1], width)
  }

  function Size(entry: Entry, width: Width): nat {
    match entry
    case Row(_, rest, texts) => |"{}"| + rest + FieldSizes(texts, width)
    case Shape(kind, omitted) =>
      |"{'kind':'"| + |kind| + |"_item_truncated','omitted_chars':"| + |Decimal(omitted)| + |"}"|
  }

  function Total(entries: seq<Entry>, width: Width): nat {
    if entries == [] then 0 else Size(entries[0], width) + Total(entries[1..], width)
  }

  // ------------------------------------------------------------------------------------------
  // Shortening one row
  // ------------------------------------------------------------------------------------------

  function Mark(omitted: nat): string {
    " ...[truncated by the memory-loop budget: " + Decimal(omitted) + " chars omitted]"
  }

  predicate HasText(item: Entry, i: nat) {
    item.Row? && i < |item.texts| && item.texts[i].Some? && item.texts[i].value != ""
  }

  /** The row with one text cut to a prefix and marked. */
  function Cut(item: Entry, i: nat, keep: int): (r: Entry)
    requires HasText(item, i) && keep >= 0
    ensures r.Row? && HasText(r, i)
  {
    var s := item.texts[i].value;
    Row(item.id, item.rest, item.texts[i := Some(Prefix(s, keep) + Mark(|s|))])
  }

  /** The first length of prefix that is tried. */
  function FirstKeep(item: Entry, i: nat, limit: int, width: Width): int
    requires HasText(item, i)
  {
    limit - (Size(item, width) - FieldSize(item.texts[i], width)) - |Mark(|item.texts[i].value|)|
  }

  /** Shaves off the excess until the row fits or nothing is left. */
  function Shaved(item: Entry, i: nat, limit: int, width: Width, keep: int): Option<Entry>
    requires HasText(item, i)
    decreases keep
  {
    if keep <= 0 then None
    else
      var cut := Cut(item, i, keep);
      if Size(cut, width) <= limit then Some(cut)
      else Shaved(item, i, limit, width, keep - (Size(cut, width) - limit))
  }

  /** The first of the fields from i on that can be shortened enough; otherwise the row's shape. */
  function FirstShaved(item: Entry, i: nat, limit: int, kind: string, width: Width): Entry
    requires item.Row? && i <= |item.texts|
    decreases |item.texts| - i
  {
    if i == |item.texts| then Shape(kind, Size(item, width))
    else
      var shaved := if HasText(item, i) then Shaved(item, i, limit, width, FirstKeep(item, i, limit, width)) else None;
      if shaved.Some? then shaved.value else FirstShaved(item, i + 1, limit, kind, width)
  }

  function Shortened(item: Entry, limit: int, kind: string, width: Width): Entry
    requires item.Row?
  {
    if Size(item, width) <= limit then item else FirstShaved(item, 0, limit, kind, width)
  }

  method TruncatedItem(item: Entry, limit: int, kind: string, width: Width) returns (r: Entry)
    requires item.Row?
    ensures r == Shortened(item, limit, kind, width)
  {
    var encoded := Size(item, width);
    if encoded <= limit {
      return item;
    }
    var i := 0;
    while i < |item.texts|
      invariant 0 <= i <= |item.texts|
      invariant FirstShaved(item, i, limit, kind, width) == FirstShaved(item, 0, limit, kind, width)
    {
      if HasText(item, i) {
        var keep := FirstKeep(item, i, limit, width);
        while keep > 0
          invariant Shaved(item, i, limit, width, keep)
                 == Shaved(item, i, limit, width, FirstKeep(item, i, limit, width))
          decreases keep
        {
          var cut := Cut(item, i, keep);
          var size := Size(cut, width);
          if size <= limit {
            return cut;
          }
          keep := keep - (size - limit);
        }
      }
      i := i + 1;
    }
    r := Shape(kind, encoded);
  }

  // ------------------------------------------------------------------------------------------
  // Newest first
  // ------------------------------------------------------------------------------------------

  /** Rounding down, as the source divides. */
  function Halved(limit: int): int {
    if limit / 2 >= 1 then limit / 2 else 1
  }

  /** The newest row as it is admitted. */
  function Admitted(item: Entry, limit: int, kind: string, width: Width): Entry
    requires item.Row?
  {
    if Size(item, width) > limit then Shortened(item, Halved(limit), kind, width) else item
  }

  /** The rows kept when the first m are left out. */
  function From(items: seq<Entry>, m: nat, limit: int, kind: string, width: Width): seq<Entry>
    requires m < |items| && items[|items| - 1].Row?
  {
    items[m..|items| - 1] + [Admitted(items[|items| - 1], limit, kind, width)]
  }

  /** As much of the newest as fits: nothing more would, and all but the newest alone do. */
  predicate Newest(items: seq<Entry>, m: nat, limit: int, kind: string, width: Width)
    requires m < |items| && items[|items| - 1].Row?
  {
    && (m > 0 ==> Total(From(items, m, limit, kind, width), width) + Size(items[m - 1], width) > limit)
    && (m < |items| - 1 ==> Total(From(items, m, limit, kind, width), width) <= limit)
  }

  /** Keeps the newest rows; omitted, when there is one, is the count in the note put before them. */
  method BoundedContext(items: seq<Entry>, limit: int, kind: string, width: Width)
    returns (selected: seq<Entry>, omitted: Option<nat>)
    requires forall i | 0 <= i < |items| :: items[i].Row?
    ensures items == [] ==> selected == [] && omitted == None
    ensures items != [] ==>
      1 <= |selected| <= |items|
      && selected == From(items, |items| - |selected|, limit, kind, width)
      && Newest(items, |items| - |selected|, limit, kind, width)
    ensures omitted == if |selected| < |items| then Some(|items| - |selected|) else None
  {
    selected := [];
    var size := 0;
    var j := |items|;
    while j > 0
      invariant 0 <= j <= |items| && |selected| == |items| - j
      invariant size == Total(selected, width)
      invariant j < |items| ==> selected == From(items, j, limit, kind, width)
      invariant j < |items| - 1 ==> size <= limit
    {
      var item := items[j - 1];
      var encoded := Size(item, width);
      if selected == [] && encoded > limit {
        var trimmed := TruncatedItem(item, Halved(limit), kind, width);
        selected := [trimmed] + selected;
        size := size + Size(trimmed, width);
      } else {
        if selected != [] && size + encoded > limit {
          break;
        }
        if selected != [] {
          assert From(items, j - 1, limit, kind, width) == [item] + selected;
        }
        selected := [item] + selected;
        size := size + encoded;
      }
      j := j - 1;
    }
    omitted := if |selected| < |items| then Some(|items| - |selected|) else None;
  }

  // ------------------------------------------------------------------------------------------
  // The two digests
  // ------------------------------------------------------------------------------------------

  /** The tail of the transcript's digest: its newest row is kept whatever its size. */
  method DigestHistory(rows: seq<Entry>, limit: int, width: Width) returns (kept: seq<Entry>, omitted: Option<nat>)
    ensures Total(rows, width) <= limit ==> kept == rows && omitted == None
    ensures Total(rows, width) > limit ==>
      |kept| <= |rows| && kept == rows[|rows| - |kept|..] && omitted == Some(|rows| - |kept|)
      && (rows != [] ==> kept != []) && (|kept| > 1 ==> Total(kept, width) <= limit)
      && (0 < |kept| < |rows| ==> Total(rows[|rows| - |kept| - 1..], width) > limit)
    ensures omitted == Some(0) <==> Total(rows, width) > limit && |rows| <= 1
  {
    var size := Total(rows, width);
    if size <= limit {
      return rows, None;
    }
    kept := [];
    var running := 0;
    var j := |rows|;
    while j > 0
      invariant 0 <= j <= |rows| && kept == rows[j..] && running == Total(kept, width)
      invariant |kept| > 1 ==> running <= limit
    {
      var encoded := Size(rows[j - 1], width);
      assert rows[j - 1..] == [rows[j - 1]] + kept;
      if running + encoded > limit && kept != [] {
        break;
      }
      kept := [rows[j - 1]] + kept;
      running := running + encoded;
      j := j - 1;
    }
    assert j == 0 ==> kept == rows;
    omitted := Some(|rows| - |kept|);
  }

  /** The rows the episode's digest keeps: walking from the newest, every row that still fits. */
  function Digested(rows: seq<Entry>, limit: int, width: Width): (r: seq<Entry>)
    ensures |r| <= |rows|
  {
    if rows == [] then []
    else
      var newer := Digested(rows[1..], limit, width);
      if Total(newer, width) + Size(rows[0], width) > limit && newer != [] then newer else [rows[0]] + newer
  }

  method DigestEpisode(rows: seq<Entry>, limit: int, width: Width) returns (kept: seq<Entry>, omitted: nat)
    ensures kept == Digested(rows, limit, width) && |kept| + omitted == |rows|
  {
    kept, omitted := [], 0;
    var size := 0;
    var j := |rows|;
    while j > 0
      invariant 0 <= j <= |rows| && size == Total(kept, width)
      invariant kept == Digested(rows[j..], limit, width) && |kept| + omitted == |rows| - j
    {
      j := j - 1;
      var encoded := Size(rows[j], width);
      assert rows[j..][1..] == rows[j + 1..];
      if size + encoded > limit && kept != [] {
        omitted := omitted + 1;
      } else {
        kept := [rows[j]] + kept;
        size := size + encoded;
      }
    }
    assert rows[0..] == rows;
  }
}
