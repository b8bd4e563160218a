/**
 * The two HTML helpers that both generator scripts define, verbatim, at the
 * top of each file: the inline "code" span and the table renderer.  The
 * renderer works on a list of row lists and, when asked to bold the first
 * column, rewrites `row[0]` of the caller's own rows; rows are therefore
 * arrays here, and the outer list (never mutated) a sequence of them.
 */
module Html {
  import opened Wrappers
  import opened Text

  const CodeSpanOpen: string :=
    "<span style=\"" + "border: 1px solid " + "grey; " + "border-radius: 5px; " + "padding: 3px; " +
    "font-family: " + "Courier New;\">"
  const CodeSpanClose: string := "</span>"

  /** `htmlFormatCode(txt)`: `txt` inside a bordered monospace span. */
  function CodeSpan(txt: string): string
  {
    CodeSpanOpen + txt + CodeSpanClose
  }

  /** Reads the text back out of a code span, if `s` is one. */
  function UnwrapCodeSpan(s: string): Option<string>
  {
    var n, m := |CodeSpanOpen|, |CodeSpanClose|;
    if |s| >= n + m && s[..n] == CodeSpanOpen && s[|s| - m..] == CodeSpanClose
    then Some(s[n..|s| - m])
    else None
  }

  lemma CodeSpanRoundTrip(txt: string)
    ensures UnwrapCodeSpan(CodeSpan(txt)) == Some(txt)
  {
    var s := CodeSpan(txt);
    assert s[..|CodeSpanOpen|] == CodeSpanOpen;
    assert s[|s| - |CodeSpanClose|..] == CodeSpanClose;
    assert s[|CodeSpanOpen|..|s| - |CodeSpanClose|] == txt;
  }

  /** Distinct texts give distinct spans. */
  lemma CodeSpanInjective(a: string, b: string)
    ensures CodeSpan(a) == CodeSpan(b) <==> a == b
  {
    CodeSpanRoundTrip(a);
    CodeSpanRoundTrip(b);
  }

  const TableOpen: string :=
    "<table style=\"" + "border: 1px solid " + "#cdcdcd; " + "padding: 3px; " + "border-spacing: 0px; " +
    "margin-top: 2em; " + "margin-bottom: 2em\"" + " cellpadding=\"5em\">"
  const TableClose: string := "</table>"

  function Bold(s: string): string
  {
    "<b>" + s + "</b>"
  }

  function CellHtml(x: string): string
  {
    "<td>" + x + "</td>"
  }

  /** `''.join([f'<td>{x}</td>' for x in row])` */
  function CellsHtml(row: seq<string>): string
  {
    if |row| == 0 then "" else CellsHtml(row[..|row| - 1]) + CellHtml(row[|row| - 1])
  }

  function RowHtml(row: seq<string>): string
  {
    "<tr>" + CellsHtml(row) + "</tr>"
  }

  /** The rows rendered one after another, in order. */
  function RowsHtml(rows: seq<seq<string>>): string
  {
    if |rows| == 0 then "" else RowsHtml(rows[..|rows| - 1]) + RowHtml(rows[|rows| - 1])
  }

  /** Every cell of `row` in bold (the new list built for a bold header row). */
  function BoldAll(row: seq<string>): (r: seq<string>)
    ensures |r| == |row| && forall j :: 0 <= j < |row| ==> r[j] == Bold(row[j])
  {
    seq(|row|, j requires 0 <= j < |row| => Bold(row[j]))
  }

  /** `row` with its first cell, if any, in bold (the in-place rewrite of `row[0]`). */
  function BoldFirst(row: seq<string>): seq<string>
  {
    if |row| == 0 then row else [Bold(row[0])] + row[1..]
  }

  /** Row `i` of the caller's list after rendering: only a later row's first cell is bolded, with `firstColumnBold`. */
  function RowAfter(row: seq<string>, i: nat, firstColumnBold: bool): seq<string>
  {
    if firstColumnBold && i != 0 then BoldFirst(row) else row
  }

  /** Row `i` as it appears in the table. */
  function ShownRow(row: seq<string>, i: nat, firstRowBold: bool, firstColumnBold: bool): seq<string>
  {
    if i == 0 && firstRowBold then BoldAll(row) else RowAfter(row, i, firstColumnBold)
  }

  /** The caller's rows after rendering. */
  function RowsAfter(rows: seq<seq<string>>, firstColumnBold: bool): (r: seq<seq<string>>)
    ensures |r| == |rows|
  {
    seq(|rows|, i requires 0 <= i < |rows| => RowAfter(rows[i], i, firstColumnBold))
  }

  /** The cells as they appear in the table. */
  function Shown(rows: seq<seq<string>>, firstRowBold: bool, firstColumnBold: bool): (r: seq<seq<string>>)
    ensures |r| == |rows|
  {
    seq(|rows|, i requires 0 <= i < |rows| => ShownRow(rows[i], i, firstRowBold, firstColumnBold))
  }

  /** The first `n` rows of `rows` rendered the way `html2dArrayToTable` renders them. */
  function RenderedRows(rows: seq<seq<string>>, firstRowBold: bool, firstColumnBold: bool, n: nat): string
    requires n <= |rows|
  {
    if n == 0 then ""
    else
      var previous := RenderedRows(rows, firstRowBold, firstColumnBold, n - 1);
      previous + RowHtml(ShownRow(rows[n - 1], n - 1, firstRowBold, firstColumnBold))
  }

  /** What `html2dArrayToTable(rows, firstRowBold, firstColumnBold)` returns. */
  function TableHtml(rows: seq<seq<string>>, firstRowBold: bool, firstColumnBold: bool): string
  {
    TableOpen + RenderedRows(rows, firstRowBold, firstColumnBold, |rows|) + TableClose
  }

  /** The table is framed by the fixed opening tag and `</table>`. */
  lemma TableFraming(rows: seq<seq<string>>, firstRowBold: bool, firstColumnBold: bool)
    ensures var t := TableHtml(rows, firstRowBold, firstColumnBold);
      |t| >= |TableOpen| + |TableClose| &&
      t[..|TableOpen|] == TableOpen && t[|t| - |TableClose|..] == TableClose
  {
    var t := TableHtml(rows, firstRowBold, firstColumnBold);
    var body := RenderedRows(rows, firstRowBold, firstColumnBold, |rows|);
    assert t == TableOpen + body + TableClose;
    assert t[..|TableOpen|] == TableOpen;
    assert t[|t| - |TableClose|..] == TableClose;
  }

  lemma {:induction false} RowsHtmlAppend(xs: seq<seq<string>>, ys: seq<seq<string>>)
    ensures RowsHtml(xs + ys) == RowsHtml(xs) + RowsHtml(ys)
    decreases |ys|
  {
    if |ys| == 0 {
      assert xs + ys == xs;
    } else {
      var n := |ys| - 1;
      assert (xs + ys)[..|xs + ys| - 1] == xs + ys[..n];
      RowsHtmlAppend(xs, ys[..n]);
      Associate(RowsHtml(xs), RowsHtml(ys[..n]), RowHtml(ys[n]));
    }
  }

  lemma {:induction false} CellsHtmlAppend(xs: seq<string>, ys: seq<string>)
    ensures CellsHtml(xs + ys) == CellsHtml(xs) + CellsHtml(ys)
    decreases |ys|
  {
    if |ys| == 0 {
      assert xs + ys == xs;
    } else {
      var n := |ys| - 1;
      assert (xs + ys)[..|xs + ys| - 1] == xs + ys[..n];
      CellsHtmlAppend(xs, ys[..n]);
      Associate(CellsHtml(xs), CellsHtml(ys[..n]), CellHtml(ys[n]));
    }
  }

  /** A sequence is its part before `k`, its element `k` and its part after `k`. */
  lemma SplitAt<T>(xs: seq<T>, k: nat)
    requires k < |xs|
    ensures xs == xs[..k] + [xs[k]] + xs[k + 1..]
  {
    assert xs[..k + 1] == xs[..k] + [xs[k]];
    assert xs == xs[..k + 1] + xs[k + 1..];
  }

  /** Row `k` is rendered after rows `..k` and before the rest: one `<tr>` per row, in input order. */
  lemma RowsHtmlAt(xs: seq<seq<string>>, k: nat)
    requires k < |xs|
    ensures RowsHtml(xs) == RowsHtml(xs[..k]) + RowHtml(xs[k]) + RowsHtml(xs[k + 1..])
  {
    var a, x, b := xs[..k], xs[k], xs[k + 1..];
    SplitAt(xs, k);
    RowsHtmlAppend(a + [x], b);
    assert (a + [x])[..|a|] == a;
  }

  /** Cell `k` is rendered after cells `..k` and before the rest: one `<td>` per cell, in input order. */
  lemma CellsHtmlAt(row: seq<string>, k: nat)
    requires k < |row|
    ensures CellsHtml(row) == CellsHtml(row[..k]) + CellHtml(row[k]) + CellsHtml(row[k + 1..])
  {
    var a, x, b := row[..k], row[k], row[k + 1..];
    SplitAt(row, k);
    CellsHtmlAppend(a + [x], b);
    assert (a + [x])[..|a|] == a;
  }

  lemma {:induction false} RenderedRowsAsList(rows: seq<seq<string>>, firstRowBold: bool, firstColumnBold: bool, n: nat)
    requires n <= |rows|
    ensures RenderedRows(rows, firstRowBold, firstColumnBold, n) == RowsHtml(Shown(rows, firstRowBold, firstColumnBold)[..n])
  {
    var shown := Shown(rows, firstRowBold, firstColumnBold);
    if n > 0 {
      RenderedRowsAsList(rows, firstRowBold, firstColumnBold, n - 1);
      assert shown[..n][..n - 1] == shown[..n - 1];
    }
  }

  /** The table is the opening tag, then one `<tr>` per row as shown, then `</table>`. */
  lemma TableCells(rows: seq<seq<string>>, firstRowBold: bool, firstColumnBold: bool)
    ensures TableHtml(rows, firstRowBold, firstColumnBold) == TableOpen + RowsHtml(Shown(rows, firstRowBold, firstColumnBold)) + TableClose
  {
    var shown := Shown(rows, firstRowBold, firstColumnBold);
    RenderedRowsAsList(rows, firstRowBold, firstColumnBold, |rows|);
    assert shown[..|rows|] == shown;
  }

  /**
   * The rows as shown: a bold header wraps every cell of row 0 in
   * `<b>..</b>`; a bold first column wraps the first cell of each later
   * non-empty row exactly once; every other cell is the caller's.
   */
  lemma ShownCells(rows: seq<seq<string>>, firstRowBold: bool, firstColumnBold: bool)
    ensures var shown := Shown(rows, firstRowBold, firstColumnBold);
      |shown| == |rows| &&
      (forall i :: 0 <= i < |rows| ==> |shown[i]| == |rows[i]|) &&
      (forall i, j :: 0 <= i < |rows| && 0 <= j < |rows[i]| ==>
        shown[i][j] == if (i == 0 && firstRowBold) || (i != 0 && j == 0 && firstColumnBold) then Bold(rows[i][j]) else rows[i][j])
  {
  }

  /** Every cell, bolded where the flags say so, occurs in the rendered table. */
  lemma TableContainsCell(rows: seq<seq<string>>, firstRowBold: bool, firstColumnBold: bool, i: nat, j: nat)
    requires i < |rows| && j < |rows[i]|
    ensures Contains(TableHtml(rows, firstRowBold, firstColumnBold),
      if (i == 0 && firstRowBold) || (i != 0 && j == 0 && firstColumnBold) then Bold(rows[i][j]) else rows[i][j])
  {
    var shown := Shown(rows, firstRowBold, firstColumnBold);
    TableCells(rows, firstRowBold, firstColumnBold);
    ShownCells(rows, firstRowBold, firstColumnBold);
    var x := shown[i][j];
    var row := shown[i];
    ContainsInfix("<td>", x, "</td>");
    CellsHtmlAt(row, j);
    ContainsWiden(CellsHtml(row[..j]), CellHtml(x), CellsHtml(row[j + 1..]), x);
    ContainsWiden("<tr>", CellsHtml(row), "</tr>", x);
    RowsHtmlAt(shown, i);
    ContainsWiden(RowsHtml(shown[..i]), RowHtml(row), RowsHtml(shown[i + 1..]), x);
    ContainsWiden(TableOpen, RowsHtml(shown), TableClose, x);
  }

  /**
   * What rendering leaves in the caller's rows: row 0 untouched; with
   * `firstColumnBold` each later non-empty row has its first cell wrapped
   * once in `<b>..</b>` and the rest untouched; without it nothing changes.
   */
  lemma RowsAfterCells(rows: seq<seq<string>>, firstColumnBold: bool)
    ensures var after := RowsAfter(rows, firstColumnBold);
      |after| == |rows| &&
      (|rows| > 0 ==> after[0] == rows[0]) &&
      (!firstColumnBold ==> after == rows) &&
      (forall i :: 0 <= i < |rows| ==> |after[i]| == |rows[i]|) &&
      (forall i, j :: 0 <= i < |rows| && 0 <= j < |rows[i]| ==>
        after[i][j] == if i != 0 && j == 0 && firstColumnBold then Bold(rows[i][j]) else rows[i][j])
  {
  }

  // The markup holds no character below the space.  Each literal piece is
  // checked on its own: the verifier does not see inside a long string
  // literal cheaply.

  lemma SpanPiecesPlain()
    ensures Plain("<span style=\"") && Plain("border: 1px solid ") && Plain("grey; ")
  {
  }

  lemma SpanStylePlain()
    ensures Plain("border-radius: 5px; ") && Plain("padding: 3px; ")
  {
  }

  lemma SpanFontPlain()
    ensures Plain("font-family: ") && Plain("Courier New;\">") && Plain(CodeSpanClose)
  {
  }

  lemma TablePiecesPlain()
    ensures Plain("<table style=\"") && Plain("#cdcdcd; ")
  {
  }

  lemma TableSpacingPlain()
    ensures Plain("border-spacing: 0px; ") && Plain("margin-top: 2em; ")
  {
  }

  lemma TableMarginPlain()
    ensures Plain("margin-bottom: 2em\"") && Plain(" cellpadding=\"5em\">")
  {
  }

  lemma TagsPlain()
    ensures Plain(TableClose) && Plain("<tr>") && Plain("</tr>") && Plain("<td>") && Plain("</td>")
    ensures Plain("<b>") && Plain("</b>")
  {
  }

  /** Neither opening tag holds a character below the space. */
  lemma OpenTagsPlain()
    ensures Plain(CodeSpanOpen) && Plain(TableOpen)
  {
    SpanPiecesPlain();
    SpanStylePlain();
    SpanFontPlain();
    TablePiecesPlain();
    TableSpacingPlain();
    TableMarginPlain();
    var s := "<span style=\"";
    PlainAppend(s, "border: 1px solid ");
    s := s + "border: 1px solid ";
    PlainAppend(s, "grey; ");
    s := s + "grey; ";
    PlainAppend(s, "border-radius: 5px; ");
    s := s + "border-radius: 5px; ";
    PlainAppend(s, "padding: 3px; ");
    s := s + "padding: 3px; ";
    PlainAppend(s, "font-family: ");
    s := s + "font-family: ";
    PlainAppend(s, "Courier New;\">");
    var t := "<table style=\"";
    PlainAppend(t, "border: 1px solid ");
    t := t + "border: 1px solid ";
    PlainAppend(t, "#cdcdcd; ");
    t := t + "#cdcdcd; ";
    PlainAppend(t, "padding: 3px; ");
    t := t + "padding: 3px; ";
    PlainAppend(t, "border-spacing: 0px; ");
    t := t + "border-spacing: 0px; ";
    PlainAppend(t, "margin-top: 2em; ");
    t := t + "margin-top: 2em; ";
    PlainAppend(t, "margin-bottom: 2em\"");
    t := t + "margin-bottom: 2em\"";
    PlainAppend(t, " cellpadding=\"5em\">");
  }

  /** No character below the space occurs in any markup the two helpers emit. */
  lemma ControlMarkupFree(c: char)
    requires c < ' '
    ensures MarkupFree(c) && c !in CodeSpanOpen && c !in CodeSpanClose
  {
    OpenTagsPlain();
    SpanFontPlain();
    TagsPlain();
    PlainAvoids(CodeSpanOpen, c);
    PlainAvoids(CodeSpanClose, c);
    PlainAvoids(TableOpen, c);
    PlainAvoids(TableClose, c);
    PlainAvoids("<tr>", c);
    PlainAvoids("</tr>", c);
    PlainAvoids("<td>", c);
    PlainAvoids("</td>", c);
    PlainAvoids("<b>", c);
    PlainAvoids("</b>", c);
  }

  lemma CodeSpanPlain(txt: string)
    requires Plain(txt)
    ensures Plain(CodeSpan(txt))
  {
    OpenTagsPlain();
    SpanFontPlain();
    PlainAppend(CodeSpanOpen, txt);
    PlainAppend(CodeSpanOpen + txt, CodeSpanClose);
  }

  // Nor does any markup hold `[`, the first character of a response tag.

  lemma SpanPiecesUnbracketed()
    ensures '[' !in "<span style=\"" && '[' !in "border: 1px solid " && '[' !in "grey; "
    ensures '[' !in "border-radius: 5px; " && '[' !in "padding: 3px; "
  {
  }

  lemma SpanFontUnbracketed()
    ensures '[' !in "font-family: " && '[' !in "Courier New;\">" && '[' !in CodeSpanClose
  {
  }

  lemma TablePiecesUnbracketed()
    ensures '[' !in "<table style=\"" && '[' !in "#cdcdcd; " && '[' !in "border-spacing: 0px; "
  {
  }

  lemma TableMarginUnbracketed()
    ensures '[' !in "margin-top: 2em; " && '[' !in "margin-bottom: 2em\"" && '[' !in " cellpadding=\"5em\">"
  {
  }

  /** The markup of both helpers is free of `[`. */
  lemma BracketMarkupFree()
    ensures MarkupFree('[') && '[' !in CodeSpanOpen && '[' !in CodeSpanClose
  {
    SpanPiecesUnbracketed();
    SpanFontUnbracketed();
    TablePiecesUnbracketed();
    TableMarginUnbracketed();
  }

  /** A character used by no markup tag. */
  predicate MarkupFree(c: char)
  {
    c !in TableOpen && c !in TableClose &&
    c !in "<tr>" && c !in "</tr>" && c !in "<td>" && c !in "</td>" && c !in "<b>" && c !in "</b>"
  }

  /** No cell of `rows` contains `c`. */
  predicate CellsFree(rows: seq<seq<string>>, c: char)
  {
    forall i, j :: 0 <= i < |rows| && 0 <= j < |rows[i]| ==> c !in rows[i][j]
  }

  lemma {:induction false} CellsHtmlAvoids(row: seq<string>, c: char)
    requires MarkupFree(c)
    requires forall j :: 0 <= j < |row| ==> c !in row[j]
    ensures c !in CellsHtml(row)
    decreases |row|
  {
    if |row| > 0 {
      CellsHtmlAvoids(row[..|row| - 1], c);
    }
  }

  lemma {:induction false} RenderedRowsAvoid(rows: seq<seq<string>>, firstRowBold: bool, firstColumnBold: bool, n: nat, c: char)
    requires n <= |rows|
    requires MarkupFree(c) && CellsFree(rows, c)
    ensures c !in RenderedRows(rows, firstRowBold, firstColumnBold, n)
  {
    if n > 0 {
      RenderedRowsAvoid(rows, firstRowBold, firstColumnBold, n - 1, c);
      CellsHtmlAvoids(ShownRow(rows[n - 1], n - 1, firstRowBold, firstColumnBold), c);
    }
  }

  /** The renderer introduces no character of its own beyond the markup. */
  lemma TableAvoids(rows: seq<seq<string>>, firstRowBold: bool, firstColumnBold: bool, c: char)
    requires MarkupFree(c) && CellsFree(rows, c)
    ensures c !in TableHtml(rows, firstRowBold, firstColumnBold)
  {
    RenderedRowsAvoid(rows, firstRowBold, firstColumnBold, |rows|, c);
  }

  lemma Associate(a: string, b: string, c: string)
    ensures a + b + c == a + (b + c)
  {
  }

  /** The rows' current contents. */
  function Snapshot(grid: seq<array<string>>): (s: seq<seq<string>>)
    reads grid
    ensures |s| == |grid| && forall i :: 0 <= i < |grid| ==> s[i] == grid[i][..]
  {
    if |grid| == 0 then [] else Snapshot(grid[..|grid| - 1]) + [grid[|grid| - 1][..]]
  }

  /** No row list occurs twice in the outer list. */
  predicate RowsDistinct(grid: seq<array<string>>)
  {
    forall i, j :: 0 <= i < j < |grid| ==> grid[i] != grid[j]
  }

  /**
   * One pass of the outer loop of `html2dArrayToTable`: the cells of row
   * `nbRow` as they are rendered.  A bold header is a fresh list; the
   * first-column rewrite goes into the caller's row.
   */
  method ShowRow(grid: seq<array<string>>, nbRow: nat, firstRowBold: bool, firstColumnBold: bool)
    returns (cells: seq<string>)
    requires nbRow < |grid|
    requires firstColumnBold ==> RowsDistinct(grid)
    modifies grid[nbRow]
    ensures cells == ShownRow(old(grid[nbRow][..]), nbRow, firstRowBold, firstColumnBold)
    ensures grid[nbRow][..] == RowAfter(old(grid[nbRow][..]), nbRow, firstColumnBold)
    ensures forall i :: 0 <= i < |grid| && i != nbRow ==> grid[i][..] == old(grid[i][..])
  {
    var row := grid[nbRow];
    if nbRow == 0 && firstRowBold {
      row := new string[row.Length](j requires 0 <= j < row.Length reads row => Bold(row[j]));
    }
    ghost var before := row[..];
    for nbCol := 0 to row.Length
      invariant row[..] == if nbCol > 0 && firstColumnBold && nbRow != 0 then BoldFirst(before) else before
      invariant row != grid[nbRow] ==> grid[nbRow][..] == old(grid[nbRow][..])
    {
      if nbCol == 0 && firstColumnBold && nbRow != 0 {
        row[0] := Bold(row[0]);
      }
    }
    cells := row[..];
  }

  /** Appending the next row's `<tr>` extends the rendered prefix by that row. */
  lemma RenderedStep(rows: seq<seq<string>>, firstRowBold: bool, firstColumnBold: bool, n: nat, html: string)
    requires n < |rows| && html == TableOpen + RenderedRows(rows, firstRowBold, firstColumnBold, n)
    ensures html + RowHtml(ShownRow(rows[n], n, firstRowBold, firstColumnBold)) ==
      TableOpen + RenderedRows(rows, firstRowBold, firstColumnBold, n + 1)
  {
    Associate(TableOpen, RenderedRows(rows, firstRowBold, firstColumnBold, n),
      RowHtml(ShownRow(rows[n], n, firstRowBold, firstColumnBold)));
  }

  /**
   * `html2dArrayToTable`.  Row 0 is shown bolded through a fresh list and
   * left as it was; with `firstColumnBold` the first cell of each later row
   * is rewritten in the caller's own row.
   */
  method HtmlTable(grid: seq<array<string>>, firstRowBold: bool := true, firstColumnBold: bool := false)
    returns (html: string)
    requires firstColumnBold ==> RowsDistinct(grid)
    modifies grid
    ensures html == TableHtml(old(Snapshot(grid)), firstRowBold, firstColumnBold)
    ensures forall i :: 0 <= i < |grid| ==> grid[i][..] == RowAfter(old(grid[i][..]), i, firstColumnBold)
  {
    ghost var rows := Snapshot(grid);
    html := TableOpen;
    for nbRow := 0 to |grid|
      invariant html == TableOpen + RenderedRows(rows, firstRowBold, firstColumnBold, nbRow)
      invariant forall i :: 0 <= i < |grid| ==> grid[i][..] == if i < nbRow then RowAfter(rows[i], i, firstColumnBold) else rows[i]
    {
      var cells := ShowRow(grid, nbRow, firstRowBold, firstColumnBold);
      assert cells == ShownRow(rows[nbRow], nbRow, firstRowBold, firstColumnBold);
      RenderedStep(rows, firstRowBold, firstColumnBold, nbRow, html);
      var cols := CellsHtml(cells);
      html := html + ("<tr>" + cols + "</tr>");
    }
    html := html + TableClose;
  }

  // How often a pattern of at most three characters whose first character
  // no markup holds, such as a response tag `[A]`, occurs in a table: once
  // for each of its occurrences in the cells as shown.

  /** The occurrences of `t` in the cells of `row`, cell by cell. */
  function CellsOccurrences(row: seq<string>, t: string): nat
  {
    if |row| == 0 then 0 else CellsOccurrences(row[..|row| - 1], t) + Occurrences(row[|row| - 1], t)
  }

  /** The occurrences of `t` in the cells of `rows`, cell by cell. */
  function GridOccurrences(rows: seq<seq<string>>, t: string): nat
  {
    if |rows| == 0 then 0 else GridOccurrences(rows[..|rows| - 1], t) + CellsOccurrences(rows[|rows| - 1], t)
  }

  /** No cell of `rows` ends within two characters of a `c`. */
  predicate CellsEndClear(rows: seq<seq<string>>, c: char)
  {
    forall i, j :: 0 <= i < |rows| && 0 <= j < |rows[i]| ==> EndsClear(rows[i][j], c)
  }

  /** Wrapping `x` in tags free of `t[0]` neither adds nor removes an occurrence of `t`. */
  lemma WrapOccurrences(open: string, x: string, close: string, t: string)
    requires 0 < |t| <= 3 && t[0] !in open && t[0] !in close && |close| >= 2
    requires EndsClear(x, t[0])
    ensures Occurrences(open + x + close, t) == Occurrences(x, t)
    ensures EndsClear(open + x + close, t[0])
  {
    var c := t[0];
    assert EndsClear(open, c);
    assert EndsClear(close, c);
    OccurrencesAppend(open, x, t);
    OccurrencesAbsent(open, t);
    EndsClearAppend(open, x, c);
    OccurrencesAppend(open + x, close, t);
    OccurrencesAbsent(close, t);
    EndsClearAppend(open + x, close, c);
  }

  lemma {:induction false} CellsHtmlOccurrences(row: seq<string>, t: string)
    requires 0 < |t| <= 3 && MarkupFree(t[0])
    requires forall j :: 0 <= j < |row| ==> EndsClear(row[j], t[0])
    ensures Occurrences(CellsHtml(row), t) == CellsOccurrences(row, t)
    ensures EndsClear(CellsHtml(row), t[0])
    decreases |row|
  {
    if |row| > 0 {
      var init, x := row[..|row| - 1], row[|row| - 1];
      CellsHtmlOccurrences(init, t);
      WrapOccurrences("<td>", x, "</td>", t);
      OccurrencesAppend(CellsHtml(init), CellHtml(x), t);
      EndsClearAppend(CellsHtml(init), CellHtml(x), t[0]);
    }
  }

  lemma {:induction false} RowsHtmlOccurrences(rows: seq<seq<string>>, t: string)
    requires 0 < |t| <= 3 && MarkupFree(t[0]) && CellsEndClear(rows, t[0])
    ensures Occurrences(RowsHtml(rows), t) == GridOccurrences(rows, t)
    ensures EndsClear(RowsHtml(rows), t[0])
    decreases |rows|
  {
    if |rows| > 0 {
      var init, row := rows[..|rows| - 1], rows[|rows| - 1];
      RowsHtmlOccurrences(init, t);
      CellsHtmlOccurrences(row, t);
      WrapOccurrences("<tr>", CellsHtml(row), "</tr>", t);
      OccurrencesAppend(RowsHtml(init), RowHtml(row), t);
      EndsClearAppend(RowsHtml(init), RowHtml(row), t[0]);
    }
  }

  /** Bolding keeps the cells clear at their ends. */
  lemma ShownEndClear(rows: seq<seq<string>>, firstRowBold: bool, firstColumnBold: bool, c: char)
    requires MarkupFree(c) && CellsEndClear(rows, c)
    ensures CellsEndClear(Shown(rows, firstRowBold, firstColumnBold), c)
  {
    var shown := Shown(rows, firstRowBold, firstColumnBold);
    ShownCells(rows, firstRowBold, firstColumnBold);
    forall i, j | 0 <= i < |shown| && 0 <= j < |shown[i]| ensures EndsClear(shown[i][j], c) {
      assert EndsClear("</b>", c);
      EndsClearAppend("<b>" + rows[i][j], "</b>", c);
    }
  }

  /** The table holds `t` exactly as often as its cells, as shown, do. */
  lemma TableOccurrences(rows: seq<seq<string>>, firstRowBold: bool, firstColumnBold: bool, t: string)
    requires 0 < |t| <= 3 && MarkupFree(t[0]) && CellsEndClear(rows, t[0])
    ensures Occurrences(TableHtml(rows, firstRowBold, firstColumnBold), t) ==
      GridOccurrences(Shown(rows, firstRowBold, firstColumnBold), t)
  {
    var shown := Shown(rows, firstRowBold, firstColumnBold);
    TableCells(rows, firstRowBold, firstColumnBold);
    ShownEndClear(rows, firstRowBold, firstColumnBold, t[0]);
    RowsHtmlOccurrences(shown, t);
    WrapOccurrences(TableOpen, RowsHtml(shown), TableClose, t);
  }

  lemma {:induction false} CellsSingle(row: seq<string>, t: string, j0: int)
    requires forall j :: 0 <= j < |row| ==> Occurrences(row[j], t) == if j == j0 then 1 else 0
    ensures CellsOccurrences(row, t) == if 0 <= j0 < |row| then 1 else 0
    decreases |row|
  {
    if |row| > 0 {
      CellsSingle(row[..|row| - 1], t, j0);
    }
  }

  /** When one cell holds `t` once and no other cell holds it, the grid holds it once. */
  lemma {:induction false} GridSingle(rows: seq<seq<string>>, t: string, i0: int, j0: int)
    requires forall i, j :: 0 <= i < |rows| && 0 <= j < |rows[i]| ==>
      Occurrences(rows[i][j], t) == if i == i0 && j == j0 then 1 else 0
    ensures GridOccurrences(rows, t) == if 0 <= i0 < |rows| && 0 <= j0 < |rows[i0]| then 1 else 0
    decreases |rows|
  {
    if |rows| > 0 {
      var n := |rows| - 1;
      GridSingle(rows[..n], t, i0, j0);
      CellsSingle(rows[n], t, if n == i0 then j0 else -1);
    }
  }
}
