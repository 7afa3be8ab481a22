/**
 * The free-text view of a filtered table: one entry per row, numbered by the
 * row's index label, the entries joined by blank lines.
 */
module Responses {
  import opened Wrappers
  import opened Numbers
  import opened Survey
  import opened SurveyFilter

  /** How an f-string renders a free-text cell: its text, or "nan" when the cell is missing. */
  function CellText(r: Row, column: string): string {
    if column in r.texts then r.texts[column] else "nan"
  }

  /** "Response {idx + 1}: {row[column]}", where idx is the row's index label. */
  function Entry(r: Row, column: string): string {
    "Response " + IntToString(r.index + 1) + ": " + CellText(r, column)
  }

  /** One entry per row, in row order; as many entries as the table counts rows. */
  function Entries(rows: Table, column: string): (es: seq<string>)
    ensures |es| == |rows|
    ensures forall k :: 0 <= k < |rows| ==> es[k] == Entry(rows[k], column)
  {
    seq(|rows|, k requires 0 <= k < |rows| => Entry(rows[k], column))
  }

  /** Python's sep.join(parts). */
  function Join(sep: string, parts: seq<string>): string {
    if |parts| == 0 then ""
    else if |parts| == 1 then parts[0]
    else parts[0] + sep + Join(sep, parts[1..])
  }

  /** The text shown for one free-text column of the filtered table. */
  function ResponsesText(rows: Table, column: string): (text: string)
    ensures rows == [] ==> text == ""
  {
    Join("\n\n", Entries(rows, column))
  }

  /** Joining one more part appends the separator and the part. */
  lemma {:induction false} JoinAppend(sep: string, parts: seq<string>, p: string)
    ensures Join(sep, parts + [p]) == if parts == [] then p else Join(sep, parts) + sep + p
  {
    if |parts| == 1 {
      assert parts + [p] == [parts[0], p];
      assert [parts[0], p][1..] == [p];
    } else if |parts| > 1 {
      assert (parts + [p])[1..] == parts[1..] + [p];
      JoinAppend(sep, parts[1..], p);
    }
  }

  /**
   * The text grows row by row: a one-row table gives its entry alone, and each
   * further row adds a blank line and its own entry at the end.
   */
  lemma ResponsesAppend(rows: Table, r: Row, column: string)
    ensures ResponsesText(rows + [r], column) ==
      if rows == [] then Entry(r, column)
      else ResponsesText(rows, column) + "\n\n" + Entry(r, column)
  {
    assert Entries(rows + [r], column) == Entries(rows, column) + [Entry(r, column)];
    JoinAppend("\n\n", Entries(rows, column), Entry(r, column));
  }

  /** The position of the first occurrence of c in s, if any. */
  function IndexOf(s: string, c: char): (r: Option<nat>)
    ensures r.Some? ==> r.value < |s| && s[r.value] == c
    ensures r.Some? ==> forall j :: 0 <= j < r.value ==> s[j] != c
    ensures r.None? ==> forall j :: 0 <= j < |s| ==> s[j] != c
  {
    if s == [] then None
    else if s[0] == c then Some(0)
    else match IndexOf(s[1..], c)
      case None => None
      case Some(k) => Some(k + 1)
  }

  /** Reads an entry back: its response number and its text. */
  function ParseEntry(e: string): Option<(int, string)> {
    if |e| >= 9 && e[..9] == "Response " then
      var rest := e[9..];
      match IndexOf(rest, ':')
      case None => None
      case Some(p) =>
        if p + 1 < |rest| && rest[p + 1] == ' ' then
          match ParseFloat(rest[..p])
          case Some(Decimal(n, 0)) => Some((n, rest[p + 2..]))
          case _ => None
        else None
    else None
  }

  lemma NoColonInNumber(n: int)
    ensures forall j :: 0 <= j < |IntToString(n)| ==> IntToString(n)[j] != ':'
  {
    var s := IntToString(n);
    if n < 0 {
      var digits := NatToString(-n);
      assert s == "-" + digits;
      forall j | 1 <= j < |s| ensures s[j] != ':' {
        assert s[j] == digits[j - 1];
      }
    }
  }

  /** The first c in a string whose prefix holds none is the one right after that prefix. */
  lemma IndexOfAfter(prefix: string, c: char, suffix: string)
    requires forall j :: 0 <= j < |prefix| ==> prefix[j] != c
    ensures IndexOf(prefix + [c] + suffix, c) == Some(|prefix|)
  {
    var s := prefix + [c] + suffix;
    assert s[|prefix|] == c;
    assert forall j :: 0 <= j < |prefix| ==> s[j] == prefix[j];
  }

  /**
   * An entry determines the row's index label and cell text: reading it back
   * gives the response number index + 1 and the text, whatever the text holds.
   */
  lemma EntryRoundTrip(r: Row, column: string)
    ensures ParseEntry(Entry(r, column)) == Some((r.index + 1, CellText(r, column)))
  {
    var number, text := IntToString(r.index + 1), CellText(r, column);
    var rest := number + [':'] + (" " + text);
    assert Entry(r, column) == "Response " + rest;
    NoColonInNumber(r.index + 1);
    IndexOfAfter(number, ':', " " + text);
    var p := |number|;
    assert rest[p + 1] == ' ' && rest[..p] == number && rest[p + 2..] == text;
    IntToStringParses(r.index + 1);
  }

  /**
   * Responses are numbered by the row's place in the loaded table, not by its
   * place in the filtered result: for a table whose index labels are 0, 1, 2,
   * ... (a freshly read file), the k-th entry of the filtered result is numbered
   * one more than the table position of the k-th row that meets the criteria.
   */
  lemma NumberedByTablePosition(data: Table, c: Criteria, column: string) returns (pos: seq<nat>)
    requires FilterSpec(data, c).Ok?
    requires forall i :: 0 <= i < |data| ==> data[i].index == i
    ensures |pos| == |Entries(FilterSpec(data, c).value, column)|
    ensures forall k, l :: 0 <= k < l < |pos| ==> pos[k] < pos[l]
    ensures forall i :: 0 <= i < |data| ==> (i in pos <==> MeetsCriteria(data[i], c))
    ensures forall k :: 0 <= k < |pos| ==>
      pos[k] < |data| &&
      Entries(FilterSpec(data, c).value, column)[k] ==
        "Response " + IntToString(pos[k] + 1) + ": " + CellText(data[pos[k]], column)
  {
    pos := FilterSpecSelects(data, c);
  }
}
