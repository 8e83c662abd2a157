/**
 * The text layout in which a grid is written out: a title line, then nine
 * row lines, with a rule of 21 dashes on a line of its own before rows 3 and
 * 6. Within a row each cell is one character ('.' when empty, otherwise its
 * digit) followed by a space, and "| " is written before columns 3 and 6.
 *
 * The writer is given twice: front to back (CellsText, BodyText: what is
 * still to be written from column j or row i on) and back to front
 * (CellsBefore, BodyBefore: what the loops have written after j or i
 * steps); the two are shown to agree. Its partner is a strict reader
 * (ParseCells, ParseLine, ParseRows, ParseText) that accepts exactly this
 * layout, and reading a written grid gives the grid back.
 */
module Layout {
  import opened Board

  datatype Option<T> = None | Some(value: T)

  /** The character a cell is written as: '.' when empty, otherwise its digit. */
  function CellChar(v: int): (ch: char)
    requires 0 <= v <= 9
    ensures ch == '.' <==> v == 0
    ensures ParseCell(ch) == Some(v)
  {
    if v == 0 then '.' else ('0' as int + v) as char
  }

  /** Reads one cell character: '.' is an empty cell, '1'..'9' a digit, anything else is refused. */
  function ParseCell(ch: char): (r: Option<int>)
    ensures r.Some? <==> ch == '.' || '1' <= ch <= '9'
    ensures r.Some? ==> 0 <= r.value <= 9
  {
    if ch == '.' then Some(0)
    else if '1' <= ch <= '9' then Some(ch as int - '0' as int)
    else None
  }

  /** The rule written before rows 3 and 6, without its newline. */
  const Rule: string := "---------------------"

  /** How many of the indexes j..8 start a unit of three after the first (3 and 6). */
  function BarsFrom(j: int): int {
    if j <= 3 then 2 else if j <= 6 then 1 else 0
  }

  /** Index k (of a row or a column) starts a unit of three other than the first: k is 3 or 6. */
  predicate StartsUnit(k: int) {
    k % 3 == 0 && k != 0
  }

  /** What is written before column j: "| " before columns 3 and 6, nothing otherwise. */
  function Bar(j: int): string
    requires 0 <= j < 9
  {
    if StartsUnit(j) then "| " else ""
  }

  /** What is written before row i: the rule and a newline before rows 3 and 6, nothing otherwise. */
  function RuleBefore(i: int): string
    requires 0 <= i < 9
  {
    if StartsUnit(i) then Rule + "\n" else ""
  }

  // ---- The writer ----

  /** The nine characters the cells of a row are written as. */
  function CellChars(row: seq<int>): seq<char>
    requires IsRow(row)
  {
    seq(9, j requires 0 <= j < 9 => CellChar(row[j]))
  }

  /** The text written for columns j..8, given the nine cell characters. */
  function CellsText(cs: seq<char>, j: int): string
    requires |cs| == 9 && 0 <= j <= 9
    decreases 9 - j
  {
    if j == 9 then ""
    else Bar(j) + [cs[j], ' '] + CellsText(cs, j + 1)
  }

  /** The text written for columns 0..j-1: what the inner loop has written after j steps. */
  function CellsBefore(cs: seq<char>, j: int): string
    requires |cs| == 9 && 0 <= j <= 9
  {
    if j == 0 then "" else CellsBefore(cs, j - 1) + (Bar(j - 1) + [cs[j - 1], ' '])
  }

  /** The line written for one row. */
  function RowLine(row: seq<int>): string
    requires IsRow(row)
  {
    CellsText(CellChars(row), 0) + "\n"
  }

  /** The nine row lines of a grid. */
  function RowLines(g: Grid): seq<string>
    requires IsGrid(g)
  {
    seq(9, i requires 0 <= i < 9 => RowLine(g[i]))
  }

  /** The text written for rows i..8, given the nine row lines. */
  function BodyText(lines: seq<string>, i: int): string
    requires |lines| == 9 && 0 <= i <= 9
    decreases 9 - i
  {
    if i == 9 then ""
    else RuleBefore(i) + lines[i] + BodyText(lines, i + 1)
  }

  /** The text written for rows 0..i-1: what the outer loop has written after i steps. */
  function BodyBefore(lines: seq<string>, i: int): string
    requires |lines| == 9 && 0 <= i <= 9
  {
    if i == 0 then "" else BodyBefore(lines, i - 1) + (RuleBefore(i - 1) + lines[i - 1])
  }

  /** The whole text written for a grid under a title. */
  function GridText(title: string, g: Grid): string
    requires IsGrid(g)
  {
    title + "\n" + BodyText(RowLines(g), 0)
  }

  /** The separator before index j is two characters ("| ") or 22 (a rule and its newline) exactly where BarsFrom drops. */
  lemma SeparatorLengths(j: int)
    requires 0 <= j < 9
    ensures |Bar(j)| == 2 * (BarsFrom(j) - BarsFrom(j + 1))
    ensures |RuleBefore(j)| == 22 * (BarsFrom(j) - BarsFrom(j + 1))
  {
  }

  /** Columns j..8 take two characters per cell and two per "| ". */
  lemma {:induction false} CellsLength(cs: seq<char>, j: int)
    requires |cs| == 9 && 0 <= j <= 9
    decreases 9 - j
    ensures |CellsText(cs, j)| == 2 * (9 - j) + 2 * BarsFrom(j)
  {
    if j < 9 {
      SeparatorLengths(j);
      CellsLength(cs, j + 1);
    }
  }

  /** A row line has 23 characters: 18 for the cells, 4 for the two "| ", and the newline. */
  lemma RowLineLength(row: seq<int>)
    requires IsRow(row)
    ensures |RowLine(row)| == 23
  {
    CellsLength(CellChars(row), 0);
  }

  /** Rows i..8 take 23 characters per row line and 22 per rule line. */
  lemma {:induction false} BodyLength(lines: seq<string>, i: int)
    requires |lines| == 9 && 0 <= i <= 9
    requires forall k :: 0 <= k < 9 ==> |lines[k]| == 23
    decreases 9 - i
    ensures |BodyText(lines, i)| == 23 * (9 - i) + 22 * BarsFrom(i)
  {
    if i < 9 {
      SeparatorLengths(i);
      BodyLength(lines, i + 1);
    }
  }

  /** The text for a grid is its title line and 251 more characters: 9 row lines and 2 rules. */
  lemma GridTextLength(title: string, g: Grid)
    requires IsGrid(g)
    ensures |GridText(title, g)| == |title| + 1 + 251
  {
    forall i | 0 <= i < 9 ensures |RowLines(g)[i]| == 23 {
      RowLineLength(g[i]);
    }
    BodyLength(RowLines(g), 0);
  }

  /** Appending nothing changes nothing. */
  lemma NothingAppended<T>(s: seq<T>)
    ensures s + [] == s
  {
  }

  /** Concatenation is associative. */
  lemma Append3<T>(a: seq<T>, b: seq<T>, c: seq<T>)
    ensures a + b + c == a + (b + c)
  {
  }

  /**
   * One step of splitting a text in two: moving a piece from the front of
   * what remains to the end of what is done keeps the whole.
   */
  lemma MovePiece<T>(done: seq<T>, piece: seq<T>, rest: seq<T>, before: seq<T>, after: seq<T>, whole: seq<T>)
    requires before == done + piece && after == piece + rest && done + after == whole
    ensures before + rest == whole
  {
    assert done + piece + rest == done + (piece + rest);
  }

  /** What the inner loop has written for columns 0..j-1, followed by what remains, is the whole row. */
  lemma {:induction false} CellsSplit(cs: seq<char>, j: int)
    requires |cs| == 9 && 0 <= j <= 9
    ensures CellsBefore(cs, j) + CellsText(cs, j) == CellsText(cs, 0)
  {
    if j > 0 {
      CellsSplit(cs, j - 1);
      MovePiece(CellsBefore(cs, j - 1), Bar(j - 1) + [cs[j - 1], ' '], CellsText(cs, j),
                CellsBefore(cs, j), CellsText(cs, j - 1), CellsText(cs, 0));
    }
  }

  /** What the outer loop has written for rows 0..i-1, followed by what remains, is the whole body. */
  lemma {:induction false} BodySplit(lines: seq<string>, i: int)
    requires |lines| == 9 && 0 <= i <= 9
    ensures BodyBefore(lines, i) + BodyText(lines, i) == BodyText(lines, 0)
  {
    if i > 0 {
      BodySplit(lines, i - 1);
      MovePiece(BodyBefore(lines, i - 1), RuleBefore(i - 1) + lines[i - 1], BodyText(lines, i),
                BodyBefore(lines, i), BodyText(lines, i - 1), BodyText(lines, 0));
    }
  }

  /** After all nine columns the inner loop has written the whole row text. */
  lemma CellsComplete(cs: seq<char>)
    requires |cs| == 9
    ensures CellsBefore(cs, 9) == CellsText(cs, 0)
  {
    CellsSplit(cs, 9);
    assert CellsText(cs, 9) == "";
  }

  /** After all nine rows the outer loop has written the whole body. */
  lemma BodyComplete(lines: seq<string>)
    requires |lines| == 9
    ensures BodyBefore(lines, 9) == BodyText(lines, 0)
  {
    BodySplit(lines, 9);
    assert BodyText(lines, 9) == "";
  }

  // ---- The reader ----

  /**
   * Reads columns j..8 of a row line without its newline. Each column must be
   * its "| " (before columns 3 and 6), a cell character and a space. Nothing
   * may follow the last column.
   */
  function ParseCells(s: string, j: int): (r: Option<seq<int>>)
    requires 0 <= j <= 9
    decreases 9 - j
    ensures r.Some? ==> |r.value| == 9 - j && forall k :: 0 <= k < |r.value| ==> 0 <= r.value[k] <= 9
  {
    if j == 9 then (if s == "" then Some([]) else None)
    else
      var bar := Bar(j);
      if |s| < |bar| + 2 || s[..|bar|] != bar || s[|bar| + 1] != ' ' then None
      else match ParseCell(s[|bar|]) {
        case None => None
        case Some(v) =>
          match ParseCells(s[|bar| + 2..], j + 1) {
            case None => None
            case Some(rest) => Some([v] + rest)
          }
      }
  }

  /** Reads one row line: the columns, then the newline. */
  function ParseLine(line: string): (r: Option<seq<int>>)
    ensures r.Some? ==> IsRow(r.value)
  {
    if |line| == 0 || line[|line| - 1] != '\n' then None
    else ParseCells(line[..|line| - 1], 0)
  }

  /** Reads rows i..8: each row's rule line where one is due, then its 23-character row line. */
  function ParseRows(s: string, i: int): (r: Option<Grid>)
    requires 0 <= i <= 9
    decreases 9 - i
    ensures r.Some? ==> |r.value| == 9 - i && forall k :: 0 <= k < |r.value| ==> IsRow(r.value[k])
  {
    if i == 9 then (if s == "" then Some([]) else None)
    else
      var rule := RuleBefore(i);
      if |s| < |rule| + 23 || s[..|rule|] != rule then None
      else match ParseLine(s[|rule|..|rule| + 23]) {
        case None => None
        case Some(row) =>
          match ParseRows(s[|rule| + 23..], i + 1) {
            case None => None
            case Some(rest) => Some([row] + rest)
          }
      }
  }

  /** Reads a whole text, given the length of its title: the title's newline, then the rows. */
  function ParseText(text: string, titleLength: nat): (r: Option<Grid>)
    ensures r.Some? ==> IsGrid(r.value)
  {
    if |text| <= titleLength || text[titleLength] != '\n' then None
    else ParseRows(text[titleLength + 1..], 0)
  }

  // ---- Reading back what was written ----

  /** The rows are parsed from whatever follows the title and its newline. */
  lemma ParseAfterTitle(title: string, body: string)
    ensures ParseText(title + "\n" + body, |title|) == ParseRows(body, 0)
  {
    var text := title + "\n" + body;
    assert text[|title|] == '\n';
    assert text[|title| + 1..] == body;
  }

  /** The suffix from index 0 is the whole sequence. */
  lemma WholeSuffix<T>(s: seq<T>)
    ensures s[0..] == s
  {
  }

  /** A suffix of a sequence is its first element followed by the rest. */
  lemma Uncons<T>(s: seq<T>, i: int)
    requires 0 <= i < |s|
    ensures s[i..] == [s[i]] + s[i + 1..]
  {
  }

  /** Reading the text written for columns j..8 gives those cells back. */
  lemma {:induction false} CellsRoundTrip(row: seq<int>, j: int)
    requires IsRow(row) && 0 <= j <= 9
    decreases 9 - j
    ensures ParseCells(CellsText(CellChars(row), j), j) == Some(row[j..])
  {
    var cs := CellChars(row);
    if j < 9 {
      CellsRoundTrip(row, j + 1);
      var bar := Bar(j);
      var rest := CellsText(cs, j + 1);
      var s := CellsText(cs, j);
      assert s == bar + [cs[j], ' '] + rest;
      assert s[..|bar|] == bar;
      assert s[|bar|] == CellChar(row[j]) && s[|bar| + 1] == ' ';
      assert s[|bar| + 2..] == rest;
      Uncons(row, j);
      assert ParseCell(s[|bar|]) == Some(row[j]);
    } else {
      assert row[j..] == [];
    }
  }

  /** Reading a row line gives the row back. */
  lemma RowLineRoundTrip(row: seq<int>)
    requires IsRow(row)
    ensures ParseLine(RowLine(row)) == Some(row)
  {
    var line := RowLine(row);
    assert line[..|line| - 1] == CellsText(CellChars(row), 0);
    CellsRoundTrip(row, 0);
    assert row[0..] == row;
  }

  /** Reading a rule (where due), a row line and the rest reads the row and then the rest. */
  lemma ParseRowsStep(rule: string, line: string, rest: string, i: int, row: seq<int>, tail: Grid)
    requires 0 <= i < 9 && rule == RuleBefore(i) && |line| == 23
    requires ParseLine(line) == Some(row) && ParseRows(rest, i + 1) == Some(tail)
    ensures ParseRows(rule + line + rest, i) == Some([row] + tail)
  {
    var s := rule + line + rest;
    assert s[..|rule|] == rule;
    assert s[|rule|..|rule| + 23] == line;
    assert s[|rule| + 23..] == rest;
  }

  /** Reading the text written for rows i..8 gives those rows back. */
  lemma {:induction false} RowsRoundTrip(g: Grid, i: int)
    requires IsGrid(g) && 0 <= i <= 9
    decreases 9 - i
    ensures ParseRows(BodyText(RowLines(g), i), i) == Some(g[i..])
  {
    var lines := RowLines(g);
    if i < 9 {
      RowsRoundTrip(g, i + 1);
      RowLineRoundTrip(g[i]);
      RowLineLength(g[i]);
      ParseRowsStep(RuleBefore(i), lines[i], BodyText(lines, i + 1), i, g[i], g[i + 1..]);
      Uncons(g, i);
    } else {
      assert g[i..] == [];
    }
  }

  /** Reading back the text written for a grid gives the grid again. */
  lemma GridTextRoundTrip(title: string, g: Grid)
    requires IsGrid(g)
    ensures ParseText(GridText(title, g), |title|) == Some(g)
  {
    ParseAfterTitle(title, BodyText(RowLines(g), 0));
    RowsRoundTrip(g, 0);
    WholeSuffix(g);
  }

  /** Two different grids are never written as the same text under one title. */
  lemma GridTextInjective(title: string, g1: Grid, g2: Grid)
    requires IsGrid(g1) && IsGrid(g2) && GridText(title, g1) == GridText(title, g2)
    ensures g1 == g2
  {
    GridTextRoundTrip(title, g1);
    GridTextRoundTrip(title, g2);
  }

  // ---- Only written text is read ----

  /** A character that is read as a cell is the character that cell is written as. */
  lemma ParsedCellChar(ch: char)
    requires ParseCell(ch).Some?
    ensures CellChar(ParseCell(ch).value) == ch
  {
    if ch != '.' {
      assert ('0' as int + (ch as int - '0' as int)) as char == ch;
    }
  }

  /** What ParseCells demands of text it accepts for column j. */
  lemma ParseCellsAccepted(s: string, j: int, vs: seq<int>)
    requires 0 <= j < 9 && ParseCells(s, j) == Some(vs)
    ensures |s| >= |Bar(j)| + 2 && s[..|Bar(j)|] == Bar(j) && s[|Bar(j)| + 1] == ' '
    ensures ParseCell(s[|Bar(j)|]) == Some(vs[0])
    ensures ParseCells(s[|Bar(j)| + 2..], j + 1) == Some(vs[1..])
  {
  }

  /** A non-empty sequence is all but its last element, then its last element. */
  lemma DropLast<T>(s: seq<T>)
    requires |s| > 0
    ensures s == s[..|s| - 1] + [s[|s| - 1]]
  {
  }

  /** A sequence is its prefix, the two elements after it, and the rest. */
  lemma AroundPair<T>(s: seq<T>, n: int)
    requires 0 <= n && n + 2 <= |s|
    ensures s == s[..n] + [s[n], s[n + 1]] + s[n + 2..]
  {
  }

  /** Text accepted for columns j..8 of a row is the text written for those columns. */
  lemma {:induction false} ParsedCells(s: string, j: int, row: seq<int>)
    requires IsRow(row) && 0 <= j <= 9 && ParseCells(s, j) == Some(row[j..])
    decreases 9 - j
    ensures s == CellsText(CellChars(row), j)
  {
    if j < 9 {
      ParseCellsAccepted(s, j, row[j..]);
      var bar := Bar(j);
      var rest := s[|bar| + 2..];
      ParsedCellChar(s[|bar|]);
      assert row[j..][1..] == row[j + 1..];
      ParsedCells(rest, j + 1, row);
      AroundPair(s, |bar|);
    }
  }

  /** A line accepted as a row is the line written for that row. */
  lemma ParsedLine(line: string, row: seq<int>)
    requires ParseLine(line) == Some(row)
    ensures line == RowLine(row)
  {
    var cells := line[..|line| - 1];
    assert line[|line| - 1] == '\n' && ParseCells(cells, 0) == Some(row);
    WholeSuffix(row);
    ParsedCells(cells, 0, row);
    DropLast(line);
  }

  /** What ParseRows demands of text it accepts for row i. */
  lemma ParseRowsAccepted(s: string, i: int, rows: Grid)
    requires 0 <= i < 9 && ParseRows(s, i) == Some(rows)
    ensures |s| >= |RuleBefore(i)| + 23 && s[..|RuleBefore(i)|] == RuleBefore(i)
    ensures ParseLine(s[|RuleBefore(i)|..|RuleBefore(i)| + 23]) == Some(rows[0])
    ensures ParseRows(s[|RuleBefore(i)| + 23..], i + 1) == Some(rows[1..])
  {
  }

  /** A sequence is its prefix up to a, the part from a to b, and the rest. */
  lemma Around<T>(s: seq<T>, a: int, b: int)
    requires 0 <= a <= b <= |s|
    ensures s == s[..a] + s[a..b] + s[b..]
  {
  }

  /** A text whose character at n is a newline is its first n characters, that newline, and the rest. */
  lemma TitleLine(text: string, n: int)
    requires 0 <= n < |text| && text[n] == '\n'
    ensures text == text[..n] + "\n" + text[n + 1..]
  {
    Around(text, n, n + 1);
    assert text[n..n + 1] == "\n";
  }

  /** Text accepted for rows i..8 of a grid is the text written for those rows. */
  lemma {:induction false} ParsedRows(s: string, i: int, g: Grid)
    requires IsGrid(g) && 0 <= i <= 9 && ParseRows(s, i) == Some(g[i..])
    decreases 9 - i
    ensures s == BodyText(RowLines(g), i)
  {
    if i < 9 {
      ParseRowsAccepted(s, i, g[i..]);
      var rule := RuleBefore(i);
      var line := s[|rule|..|rule| + 23];
      ParsedLine(line, g[i]);
      assert g[i..][1..] == g[i + 1..];
      ParsedRows(s[|rule| + 23..], i + 1, g);
      Around(s, |rule|, |rule| + 23);
    }
  }

  /** A text accepted as a grid is the text written for that grid under the title it starts with. */
  lemma ParsedText(text: string, titleLength: nat, g: Grid)
    requires ParseText(text, titleLength) == Some(g)
    ensures text == GridText(text[..titleLength], g)
  {
    var body := text[titleLength + 1..];
    assert text[titleLength] == '\n' && ParseRows(body, 0) == Some(g);
    WholeSuffix(g);
    ParsedRows(body, 0, g);
    TitleLine(text, titleLength);
  }
}
