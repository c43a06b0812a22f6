/** The page flow of the report (`buildReportPdf`, `ensureSpace`,
    `blockHeight` and `drawTable` in src/lib/reports/pdf.ts), stated as
    functions from one layout state to the next.  The methods of
    ReportBuilder are proved to follow these functions step for step. */
module PageLayout {
  import opened JsValues
  import opened Schema
  import opened AnswerFormat
  import opened TextWrap

  /** A US-letter page with a 48-point margin on every side. */
  const PageWidth: int := 612
  const PageHeight: int := 792
  const Margin: int := 48
  const MaxWidth: int := PageWidth - Margin * 2
  const Top: int := PageHeight - Margin

  datatype Font = Regular | Bold

  /** The widths of text in Helvetica and in Helvetica Bold. */
  datatype Metrics = Metrics(regular: Measure, bold: Measure)

  function FontMeasure(m: Metrics, font: Font): Measure {
    if font.Bold? then m.bold else m.regular
  }

  /** One drawing call on a page of the document: `drawText` at (x, y), or
      `drawRectangle` with its lower-left corner at (x, y). */
  datatype DrawOp =
    | TextOp(page: nat, x: int, y: int, size: int, font: Font, text: string)
    | RectOp(page: nat, x: int, y: int, width: int, height: int)

  /** The layout state: the pages added so far, the current page and
      baseline, the next question number, every drawing call made, and the
      number and caption of every question placed so far. */
  datatype Flow = Flow(pageCount: nat, page: nat, y: int, qNum: int,
                       ops: seq<DrawOp>, headings: seq<(int, string)>)

  /** The current page is the last one added and every drawing call is on
      a page that exists. */
  predicate Valid(f: Flow) {
    && 1 <= f.pageCount
    && f.page == f.pageCount - 1
    && forall k :: 0 <= k < |f.ops| ==> f.ops[k].page < f.pageCount
  }

  /** A fresh document: one page, the baseline at the top margin. */
  function Start(): (f: Flow)
    ensures Valid(f) && f.y == Top && f.qNum == 1 && f.ops == [] && f.headings == []
  {
    Flow(1, 0, Top, 1, [], [])
  }

  /** `blockHeight(lines)`: 14 points a line and 6 after the block. */
  function BlockHeight(lines: seq<string>): int {
    |lines| * 14 + 6
  }

  /** `ensureSpace(needed)`: a new page when the block would cross the
      bottom margin. */
  function EnsureSpaceSpec(f: Flow, needed: int): (r: Flow)
    ensures r.ops == f.ops && r.qNum == f.qNum && r.headings == f.headings
    ensures f.y - needed < Margin ==> r.pageCount == f.pageCount + 1 && r.page == f.pageCount && r.y == Top
    ensures f.y - needed >= Margin ==> r == f
    ensures needed <= Top - Margin ==> r.y - needed >= Margin
  {
    if f.y - needed < Margin then f.(pageCount := f.pageCount + 1, page := f.pageCount, y := Top)
    else f
  }

  /** Lines drawn downwards from `y0`, `step` points apart. */
  function LineOps(page: nat, x: int, y0: int, step: int, size: int, font: Font, lines: seq<string>): (r: seq<DrawOp>)
    ensures |r| == |lines|
    ensures AllOn(r, page)
  {
    if lines == [] then []
    else
      var n := |lines| - 1;
      LineOps(page, x, y0, step, size, font, lines[..n]) + [TextOp(page, x, y0 - step * n, size, font, lines[n])]
  }

  /** The k-th line is drawn `step * k` points below `y0`. */
  lemma {:induction false} LineOpsAt(page: nat, x: int, y0: int, step: int, size: int, font: Font, lines: seq<string>)
    ensures var r := LineOps(page, x, y0, step, size, font, lines);
            forall k :: 0 <= k < |r| ==> r[k] == TextOp(page, x, y0 - step * k, size, font, lines[k])
  {
    if lines != [] {
      var n := |lines| - 1;
      LineOpsAt(page, x, y0, step, size, font, lines[..n]);
    }
  }

  /** Every drawing call of `ops` is on `page`. */
  predicate AllOn(ops: seq<DrawOp>, page: nat) {
    forall k :: 0 <= k < |ops| ==> ops[k].page == page
  }

  /** The drawing calls of `ops` beyond those of `before` are all on `page`. */
  predicate AddedOn(before: seq<DrawOp>, ops: seq<DrawOp>, page: nat) {
    before <= ops && AllOn(ops[|before|..], page)
  }

  /** A later state keeps every drawing call of an earlier one, and keeps
      it valid. */
  predicate Extends(f: Flow, r: Flow) {
    f.ops <= r.ops && (Valid(f) ==> Valid(r))
  }

  lemma AllOnConcat(a: seq<DrawOp>, b: seq<DrawOp>, page: nat)
    requires AllOn(a, page) && AllOn(b, page)
    ensures AllOn(a + b, page)
  {
    assert forall k :: |a| <= k < |a + b| ==> (a + b)[k] == b[k - |a|];
  }

  lemma AddedOnAppend(before: seq<DrawOp>, xs: seq<DrawOp>, page: nat)
    requires AllOn(xs, page)
    ensures AddedOn(before, before + xs, page)
  {
    assert (before + xs)[|before|..] == xs;
  }

  lemma AddedOnTrans(a: seq<DrawOp>, b: seq<DrawOp>, c: seq<DrawOp>, page: nat)
    requires AddedOn(a, b, page) && AddedOn(b, c, page)
    ensures AddedOn(a, c, page)
  {
    assert c[|a|..] == b[|a|..] + c[|b|..];
    AllOnConcat(b[|a|..], c[|b|..], page);
  }

  /** Drawing calls on an existing page keep a state valid. */
  lemma ValidAppend(f: Flow, xs: seq<DrawOp>, page: nat)
    requires Valid(f) && page < f.pageCount && AllOn(xs, page)
    ensures Valid(f.(ops := f.ops + xs))
  {
    var ops := f.ops + xs;
    assert forall k :: |f.ops| <= k < |ops| ==> ops[k] == xs[k - |f.ops|];
  }

  lemma ExtendsTrans(a: Flow, b: Flow, c: Flow)
    requires Extends(a, b) && Extends(b, c)
    ensures Extends(a, c)
  {
  }

  lemma EnsureSpaceKeeps(f: Flow, needed: int)
    ensures Extends(f, EnsureSpaceSpec(f, needed))
  {
  }

  /** `for (const ln of lines) { page.drawText(ln, {x: margin, y, size: 11, font}); y -= 14; }` */
  function DrawLinesSpec(f: Flow, lines: seq<string>, font: Font): (r: Flow)
    ensures r.pageCount == f.pageCount && r.page == f.page && r.qNum == f.qNum && r.headings == f.headings
    ensures r.y == f.y - 14 * |lines|
  {
    f.(ops := f.ops + LineOps(f.page, Margin, f.y, 14, 11, font, lines), y := f.y - 14 * |lines|)
  }

  /** The lines land on the current page. */
  lemma DrawLinesKeeps(f: Flow, lines: seq<string>, font: Font)
    ensures var r := DrawLinesSpec(f, lines, font);
            AddedOn(f.ops, r.ops, f.page) && Extends(f, r)
  {
    var xs := LineOps(f.page, Margin, f.y, 14, 11, font, lines);
    LineOpsAt(f.page, Margin, f.y, 14, 11, font, lines);
    assert AllOn(xs, f.page);
    AddedOnAppend(f.ops, xs, f.page);
    if Valid(f) {
      ValidAppend(f, xs, f.page);
      assert DrawLinesSpec(f, lines, font) == f.(ops := f.ops + xs).(y := f.y - 14 * |lines|);
    }
  }

  /** One `drawText` at the left margin and the baseline, then `y -= drop`. */
  function TextSpec(f: Flow, size: int, font: Font, text: string, drop: int): (r: Flow)
    ensures r.pageCount == f.pageCount && r.page == f.page && r.qNum == f.qNum && r.headings == f.headings
    ensures r.y == f.y - drop && r.ops == f.ops + [TextOp(f.page, Margin, f.y, size, font, text)]
  {
    f.(ops := f.ops + [TextOp(f.page, Margin, f.y, size, font, text)], y := f.y - drop)
  }

  lemma TextKeeps(f: Flow, size: int, font: Font, text: string, drop: int)
    ensures Extends(f, TextSpec(f, size, font, text, drop))
  {
    var xs := [TextOp(f.page, Margin, f.y, size, font, text)];
    if Valid(f) {
      assert AllOn(xs, f.page);
      ValidAppend(f, xs, f.page);
    }
  }

  /** The title block: the form title, its id and its source. */
  function TitleSpec(f: Flow, form: FormSchema): (r: Flow)
    ensures r.qNum == f.qNum && r.headings == f.headings
  {
    var g := EnsureSpaceSpec(f, 40);
    var g1 := TextSpec(g, 16, Bold, form.title, 22);
    var g2 := TextSpec(g1, 10, Regular, "Form ID: " + form.id, 14);
    TextSpec(g2, 10, Regular, "Source: " + form.source.name + " (" + form.source.sourceType + ")", 22)
  }

  lemma TitleKeeps(f: Flow, form: FormSchema)
    ensures Extends(f, TitleSpec(f, form))
  {
    var g := EnsureSpaceSpec(f, 40);
    var g1 := TextSpec(g, 16, Bold, form.title, 22);
    var g2 := TextSpec(g1, 10, Regular, "Form ID: " + form.id, 14);
    var g3 := TextSpec(g2, 10, Regular, "Source: " + form.source.name + " (" + form.source.sourceType + ")", 22);
    EnsureSpaceKeeps(f, 40);
    TextKeeps(g, 16, Bold, form.title, 22);
    TextKeeps(g1, 10, Regular, "Form ID: " + form.id, 14);
    TextKeeps(g2, 10, Regular, "Source: " + form.source.name + " (" + form.source.sourceType + ")", 22);
    ExtendsTrans(f, g, g1);
    ExtendsTrans(f, g1, g2);
    ExtendsTrans(f, g2, g3);
  }

  // ---------------------------------------------------------------- tables

  /** `Math.max(1, headers.length)` columns, each `floor(maxW / colCount)` wide. */
  function ColCount(headers: seq<string>): (n: int)
    ensures n >= 1 && n >= |headers|
    ensures headers != [] ==> n == |headers|
  {
    if |headers| > 1 then |headers| else 1
  }

  function ColWidth(colCount: int): (w: int)
    requires colCount >= 1
    ensures w * colCount <= MaxWidth < (w + 1) * colCount
  {
    MaxWidth / colCount
  }

  /** The number of lines one cell needs: its text (the dash when empty)
      wrapped to the column less its padding, in the regular font, and at
      least one. */
  function CellLines(cell: string, colW: int, m: Metrics): (n: int)
    ensures n >= 1
  {
    var k := |WrapLines(OrDash(cell), colW - 12, m.regular, 10)|;
    if k > 1 then k else 1
  }

  function CellLineCounts(cells: seq<string>, colW: int, m: Metrics): (r: seq<int>)
    ensures |r| == |cells|
  {
    seq(|cells|, k requires 0 <= k < |cells| => CellLines(cells[k], colW, m))
  }

  /** `Math.max(1, ...xs)`: the largest entry, one when there is none. */
  function MaxAtLeastOne(xs: seq<int>): (r: int)
    ensures r >= 1
  {
    if xs == [] then 1
    else
      var rest := MaxAtLeastOne(xs[1..]);
      if xs[0] > rest then xs[0] else rest
  }

  /** It bounds every entry and is one of them, or one. */
  lemma {:induction false} MaxAtLeastOneIsMax(xs: seq<int>)
    ensures forall k :: 0 <= k < |xs| ==> xs[k] <= MaxAtLeastOne(xs)
    ensures MaxAtLeastOne(xs) == 1 || exists k :: 0 <= k < |xs| && xs[k] == MaxAtLeastOne(xs)
  {
    if xs != [] {
      MaxAtLeastOneIsMax(xs[1..]);
      assert forall k :: 1 <= k < |xs| ==> xs[k] == xs[1..][k - 1];
    }
  }

  /** `rowHeightFor(cells)`: the padding above and below, and 15 points a
      line for the tallest cell; every cell of the row shares it.  The
      maximum is taken with one, so a row with no cells is one line tall. */
  function RowHeight(cells: seq<string>, colW: int, m: Metrics): (h: int)
    ensures h >= 25
  {
    var counts := CellLineCounts(cells, colW, m);
    10 + 15 * MaxAtLeastOne(counts)
  }

  /** The row is as tall as its tallest cell, and one line at the least. */
  lemma RowHeightTallest(cells: seq<string>, colW: int, m: Metrics)
    ensures forall k :: 0 <= k < |cells| ==> 10 + 15 * CellLines(cells[k], colW, m) <= RowHeight(cells, colW, m)
    ensures || RowHeight(cells, colW, m) == 25
            || exists k :: 0 <= k < |cells| && RowHeight(cells, colW, m) == 10 + 15 * CellLines(cells[k], colW, m)
  {
    var counts := CellLineCounts(cells, colW, m);
    MaxAtLeastOneIsMax(counts);
    assert forall k :: 0 <= k < |cells| ==> counts[k] == CellLines(cells[k], colW, m);
  }

  /** An integer or minus infinity, for `Math.max()` of nothing. */
  datatype ExtInt = NegInf | Fin(n: int)

  /** `Math.max(...xs)` as written: minus infinity for no arguments. */
  function MaxAsWritten(xs: seq<int>): (r: ExtInt)
    ensures xs == [] <==> r == NegInf
    ensures r.Fin? ==> (forall k :: 0 <= k < |xs| ==> xs[k] <= r.n) && exists k :: 0 <= k < |xs| && xs[k] == r.n
  {
    if xs == [] then NegInf
    else
      var rest := MaxAsWritten(xs[1..]);
      assert forall k :: 1 <= k < |xs| ==> xs[k] == xs[1..][k - 1];
      if rest.NegInf? || xs[0] > rest.n then Fin(xs[0]) else rest
  }

  /** `rowHeightFor(cells)` exactly as written: `padY * 2 + maxLines * lineH`
      with `maxLines = Math.max(...linesPerCell)`, minus infinity for a row
      without cells. */
  function RowHeightAsWritten(cells: seq<string>, colW: int, m: Metrics): (r: ExtInt)
    ensures r == NegInf <==> cells == []
  {
    match MaxAsWritten(CellLineCounts(cells, colW, m))
    case NegInf => NegInf
    case Fin(k) => Fin(10 + 15 * k)
  }

  /** A table without columns has a header row of height minus infinity. */
  lemma ZeroColumnHeader(colW: int, m: Metrics)
    ensures RowHeightAsWritten([], colW, m) == NegInf
  {
  }

  /** For any row with at least one cell, the corrected height is the one
      the code computes. */
  lemma {:induction false} RowHeightAgrees(cells: seq<string>, colW: int, m: Metrics)
    requires cells != []
    ensures RowHeightAsWritten(cells, colW, m) == Fin(RowHeight(cells, colW, m))
  {
    var counts := CellLineCounts(cells, colW, m);
    MaxAgrees(counts);
  }

  lemma {:induction false} MaxAgrees(xs: seq<int>)
    requires xs != [] && forall k :: 0 <= k < |xs| ==> xs[k] >= 1
    ensures MaxAsWritten(xs) == Fin(MaxAtLeastOne(xs))
  {
    var a := MaxAsWritten(xs);
    var b := MaxAtLeastOne(xs);
    MaxAtLeastOneIsMax(xs);
    var i :| 0 <= i < |xs| && xs[i] == a.n;
    assert xs[i] <= b;
    if b != 1 {
      var j :| 0 <= j < |xs| && xs[j] == b;
      assert xs[j] <= a.n;
    } else {
      assert xs[0] <= b;
    }
  }

  /** The text drawn in column `c`: `cells[c] ?? "—"`, then `|| "—"`. */
  function CellAt(cells: seq<string>, c: int): string {
    if 0 <= c < |cells| then cells[c] else Dash
  }

  /** The border of cell `c` and its wrapped lines, 15 points apart from the
      baseline `yTop - padY - fontSize`. */
  function CellOps(page: nat, yTop: int, rowH: int, colW: int, c: int, cells: seq<string>,
                   font: Font, m: Metrics): (r: seq<DrawOp>)
    ensures AllOn(r, page)
  {
    var x := Margin + c * colW;
    var lines := WrapLines(OrDash(CellAt(cells, c)), colW - 12, FontMeasure(m, font), 10);
    [RectOp(page, x, yTop - rowH, colW, rowH)] + LineOps(page, x + 6, yTop - 15, 15, 10, font, lines)
  }

  /** The drawing calls for columns 0 .. n-1 of one row. */
  function CellsOps(page: nat, yTop: int, rowH: int, colW: int, n: nat, cells: seq<string>,
                    font: Font, m: Metrics): (r: seq<DrawOp>)
    ensures AllOn(r, page)
  {
    if n == 0 then []
    else
      CellsOps(page, yTop, rowH, colW, n - 1, cells, font, m)
      + CellOps(page, yTop, rowH, colW, n - 1, cells, font, m)
  }

  /** The layout state inside `drawTable`: the outer state that
      `ensureSpace` changes, and `yRef.y`. */
  datatype TableState = TableState(flow: Flow, cursor: int)

  /** The conditions every table step keeps: the outer state stays valid,
      the captured page exists, and the outer baseline is the one at the
      start of the table or the top of a fresh page. */
  predicate TableInvariant(s: TableState, tablePage: nat, y0: int) {
    Valid(s.flow) && tablePage < s.flow.pageCount && (s.flow.y == y0 || s.flow.y == Top)
  }

  /** `drawRow(cells, isHeader)`: reserve the row's height plus 8 against
      the OUTER baseline, then draw every cell on the page captured when
      the table began, from `yRef.y` down. */
  function RowSpec(s: TableState, tablePage: nat, colW: int, colCount: nat, cells: seq<string>,
                   isHeader: bool, m: Metrics): (r: TableState)
    ensures r.cursor == s.cursor - RowHeight(cells, colW, m)
    ensures r.flow.pageCount >= s.flow.pageCount
    ensures r.flow.qNum == s.flow.qNum && r.flow.headings == s.flow.headings
  {
    var h := RowHeight(cells, colW, m);
    var g := EnsureSpaceSpec(s.flow, h + 8);
    var font := if isHeader then Bold else Regular;
    TableState(g.(ops := g.ops + CellsOps(tablePage, s.cursor, h, colW, colCount, cells, font, m)),
               s.cursor - h)
  }

  /** The total height of the data rows. */
  function RowsHeight(rows: seq<seq<string>>, colW: int, m: Metrics): (h: int)
    ensures h >= 25 * |rows|
  {
    if rows == [] then 0
    else RowsHeight(rows[..|rows| - 1], colW, m) + RowHeight(rows[|rows| - 1], colW, m)
  }

  /** `for (const r of rows) drawRow(r, false)`. */
  function RowsSpec(s: TableState, tablePage: nat, colW: int, colCount: nat, rows: seq<seq<string>>,
                    m: Metrics): (r: TableState)
    ensures r.cursor == s.cursor - RowsHeight(rows, colW, m)
    ensures r.flow.pageCount >= s.flow.pageCount
    ensures r.flow.qNum == s.flow.qNum && r.flow.headings == s.flow.headings
  {
    if rows == [] then s
    else
      var n := |rows| - 1;
      RowSpec(RowsSpec(s, tablePage, colW, colCount, rows[..n], m), tablePage, colW, colCount, rows[n], false, m)
  }

  /** One more data row, drawn after the ones before it. */
  lemma RowsSnoc(s: TableState, tablePage: nat, colW: int, colCount: nat, rows: seq<seq<string>>, i: nat, m: Metrics)
    requires i < |rows|
    ensures RowsSpec(s, tablePage, colW, colCount, rows[..i + 1], m)
         == RowSpec(RowsSpec(s, tablePage, colW, colCount, rows[..i], m), tablePage, colW, colCount, rows[i], false, m)
  {
    assert rows[..i + 1][..i] == rows[..i];
  }

  /** A row only adds drawing calls, all on the captured page, and keeps the
      table invariant. */
  lemma RowKeeps(s: TableState, tablePage: nat, colW: int, colCount: nat, cells: seq<string>,
                 isHeader: bool, m: Metrics, y0: int)
    ensures var r := RowSpec(s, tablePage, colW, colCount, cells, isHeader, m);
            && AddedOn(s.flow.ops, r.flow.ops, tablePage)
            && (TableInvariant(s, tablePage, y0) ==> TableInvariant(r, tablePage, y0))
  {
    var h := RowHeight(cells, colW, m);
    var g := EnsureSpaceSpec(s.flow, h + 8);
    var font := if isHeader then Bold else Regular;
    var xs := CellsOps(tablePage, s.cursor, h, colW, colCount, cells, font, m);
    AddedOnAppend(s.flow.ops, xs, tablePage);
    if TableInvariant(s, tablePage, y0) {
      EnsureSpaceKeeps(s.flow, h + 8);
      ValidAppend(g, xs, tablePage);
    }
  }

  lemma {:induction false} RowsKeep(s: TableState, tablePage: nat, colW: int, colCount: nat,
                                    rows: seq<seq<string>>, m: Metrics, y0: int)
    ensures var r := RowsSpec(s, tablePage, colW, colCount, rows, m);
            && AddedOn(s.flow.ops, r.flow.ops, tablePage)
            && (TableInvariant(s, tablePage, y0) ==> TableInvariant(r, tablePage, y0))
  {
    if rows == [] {
      assert s.flow.ops[|s.flow.ops|..] == [];
    } else {
      var n := |rows| - 1;
      var s1 := RowsSpec(s, tablePage, colW, colCount, rows[..n], m);
      RowsKeep(s, tablePage, colW, colCount, rows[..n], m, y0);
      RowKeeps(s1, tablePage, colW, colCount, rows[n], false, m, y0);
      AddedOnTrans(s.flow.ops, s1.flow.ops, RowSpec(s1, tablePage, colW, colCount, rows[n], false, m).flow.ops, tablePage);
    }
  }

  /** `drawTable`: the header row, the data rows, then 8 points of space. */
  function TableSpec(f: Flow, tablePage: nat, y0: int, headers: seq<string>, rows: seq<seq<string>>,
                     m: Metrics): TableState
  {
    var colCount := ColCount(headers);
    var colW := ColWidth(colCount);
    var s1 := RowSpec(TableState(f, y0), tablePage, colW, colCount, headers, true, m);
    var s2 := RowsSpec(s1, tablePage, colW, colCount, rows, m);
    TableState(s2.flow, s2.cursor - 8)
  }

  /** `yRef.y` ends at its start less the header height, the height of
      every data row and 8, whatever pages `ensureSpace` added; every
      drawing call of the table is on the page captured at its start; the
      outer baseline is unchanged or at the top of a fresh page. */
  lemma TableGeometry(f: Flow, headers: seq<string>, rows: seq<seq<string>>, m: Metrics)
    ensures var t := TableSpec(f, f.page, f.y, headers, rows, m);
            var colW := ColWidth(ColCount(headers));
            && t.cursor == f.y - RowHeight(headers, colW, m) - RowsHeight(rows, colW, m) - 8
            && AddedOn(f.ops, t.flow.ops, f.page)
            && (Valid(f) ==> TableInvariant(t, f.page, f.y))
            && t.flow.qNum == f.qNum && t.flow.headings == f.headings
  {
    var colCount := ColCount(headers);
    var colW := ColWidth(colCount);
    var s0 := TableState(f, f.y);
    var s1 := RowSpec(s0, f.page, colW, colCount, headers, true, m);
    var s2 := RowsSpec(s1, f.page, colW, colCount, rows, m);
    RowKeeps(s0, f.page, colW, colCount, headers, true, m, f.y);
    RowsKeep(s1, f.page, colW, colCount, rows, m, f.y);
    AddedOnTrans(f.ops, s1.flow.ops, s2.flow.ops, f.page);
  }

  /** The table is not split across pages: with 28 or more data rows, a
      table that starts at the top of a page runs below the bottom margin
      of that page. */
  lemma TableOverflows(f: Flow, headers: seq<string>, rows: seq<seq<string>>, m: Metrics)
    requires Valid(f) && f.y <= Top && |rows| >= 28
    ensures TableSpec(f, f.page, f.y, headers, rows, m).cursor < Margin
  {
    TableGeometry(f, headers, rows, m);
  }

  // ---------------------------------------------------------------- answers

  /** The cell texts of one table row, or the TypeError that reading a
      property of a null or undefined row raises. */
  function RowCells(columns: seq<TableColumn>, row: Value): (r: Result<seq<string>>)
    ensures r.Throws? <==> columns != [] && IsNullish(row)
    ensures r.Ok? ==> |r.value| == |columns|
    ensures r.Ok? ==> forall k :: 0 <= k < |columns| ==>
              r.value[k] == CellText(columns[k], Get(row, columns[k].id).value)
  {
    if columns == [] then Ok([])
    else
      match Get(row, columns[0].id)
      case Throws(e) => Throws(e)
      case Ok(cell) =>
        match RowCells(columns[1..], row)
        case Throws(e) => Throws(e)
        case Ok(rest) =>
          assert forall k :: 1 <= k < |columns| ==> columns[k] == columns[1..][k - 1];
          Ok([CellText(columns[0], cell)] + rest)
  }

  function RowsCells(columns: seq<TableColumn>, rows: seq<Value>): (r: Result<seq<seq<string>>>)
    ensures r.Throws? <==> columns != [] && exists i :: 0 <= i < |rows| && IsNullish(rows[i])
    ensures r.Ok? ==> |r.value| == |rows|
    ensures r.Ok? ==> forall i :: 0 <= i < |rows| ==> RowCells(columns, rows[i]) == Ok(r.value[i])
  {
    if rows == [] then Ok([])
    else
      var n := |rows| - 1;
      match RowsCells(columns, rows[..n])
      case Throws(e) =>
        assert forall i :: 0 <= i < n ==> rows[i] == rows[..n][i];
        Throws(e)
      case Ok(init) =>
        assert forall i :: 0 <= i < n ==> rows[i] == rows[..n][i];
        match RowCells(columns, rows[n])
        case Throws(e) => Throws(e)
        case Ok(last) => Ok(init + [last])
  }

  /** The rows a table answer supplies: none unless it is an array. */
  function TableRows(columns: seq<TableColumn>, v: Value): (r: Result<seq<seq<string>>>)
    ensures r.Throws? <==> columns != [] && v.Arr? && exists i :: 0 <= i < |v.items| && IsNullish(v.items[i])
    ensures !v.Arr? ==> r == Ok([])
  {
    RowsCells(columns, if v.Arr? then v.items else [])
  }

  /** `field.columns.map((c) => c.label)`. */
  function Captions(columns: seq<TableColumn>): (r: seq<string>)
    ensures |r| == |columns| && forall k :: 0 <= k < |r| ==> r[k] == columns[k].caption
  {
    seq(|columns|, k requires 0 <= k < |columns| => columns[k].caption)
  }

  /** `a.split("\n").flatMap((line) => wrap(line, maxW, regular, 11))`. */
  function WrapAll(pieces: seq<string>, m: Metrics): seq<string> {
    if pieces == [] then []
    else
      var n := |pieces| - 1;
      WrapAll(pieces[..n], m) + WrapLines(pieces[n], MaxWidth, m.regular, 11)
  }

  function AnswerLines(a: string, m: Metrics): seq<string> {
    WrapAll(Split(a, '\n'), m)
  }

  /** The state after the wrapped question of a table field, its table, and
      `y = yRef.y`. */
  function TableFieldSpec(f: Flow, qLines: seq<string>, headers: seq<string>, rows: seq<seq<string>>,
                          m: Metrics): (r: Flow)
    ensures r.qNum == f.qNum && r.headings == f.headings
  {
    var g1 := EnsureSpaceSpec(f, BlockHeight(qLines));
    var g2 := DrawLinesSpec(g1, qLines, Bold);
    var t := TableSpec(g2, g2.page, g2.y, headers, rows, m);
    t.flow.(y := t.cursor)
  }

  lemma TableFieldKeeps(f: Flow, qLines: seq<string>, headers: seq<string>, rows: seq<seq<string>>, m: Metrics)
    ensures Extends(f, TableFieldSpec(f, qLines, headers, rows, m))
  {
    var g1 := EnsureSpaceSpec(f, BlockHeight(qLines));
    var g2 := DrawLinesSpec(g1, qLines, Bold);
    var t := TableSpec(g2, g2.page, g2.y, headers, rows, m);
    var r := t.flow.(y := t.cursor);
    EnsureSpaceKeeps(f, BlockHeight(qLines));
    DrawLinesKeeps(g1, qLines, Bold);
    TableGeometry(g2, headers, rows, m);
    assert Extends(g2, r);
    ExtendsTrans(f, g1, g2);
    ExtendsTrans(f, g2, r);
  }

  /** The state after the wrapped question and answer of any other field:
      room for both blocks is reserved first, then the lines are drawn
      14 points apart, then 6 points of space. */
  function BlockFieldSpec(f: Flow, qLines: seq<string>, aLines: seq<string>): (r: Flow)
    ensures r.qNum == f.qNum && r.headings == f.headings
  {
    var g1 := EnsureSpaceSpec(f, BlockHeight(qLines) + BlockHeight(aLines));
    var g2 := DrawLinesSpec(g1, qLines, Bold);
    var g3 := DrawLinesSpec(g2, aLines, Regular);
    g3.(y := g3.y - 6)
  }

  lemma BlockFieldKeeps(f: Flow, qLines: seq<string>, aLines: seq<string>)
    ensures Extends(f, BlockFieldSpec(f, qLines, aLines))
  {
    var g1 := EnsureSpaceSpec(f, BlockHeight(qLines) + BlockHeight(aLines));
    var g2 := DrawLinesSpec(g1, qLines, Bold);
    var g3 := DrawLinesSpec(g2, aLines, Regular);
    EnsureSpaceKeeps(f, BlockHeight(qLines) + BlockHeight(aLines));
    DrawLinesKeeps(g1, qLines, Bold);
    DrawLinesKeeps(g2, aLines, Regular);
    ExtendsTrans(f, g1, g2);
    ExtendsTrans(f, g2, g3);
    assert Extends(g3, g3.(y := g3.y - 6));
    ExtendsTrans(f, g3, g3.(y := g3.y - 6));
  }

  /** The question and answer of a field share one page: room for both
      blocks, 14 points per line and 12 more, is reserved first, the
      baseline then drops 14 points per line and 6 more, and no line lands
      below 6 points above the bottom margin when the field fits a page. */
  lemma BlockFieldGeometry(f: Flow, qLines: seq<string>, aLines: seq<string>)
    ensures var n := |qLines| + |aLines|;
            var g := EnsureSpaceSpec(f, 14 * n + 12);
            var r := BlockFieldSpec(f, qLines, aLines);
            && r.y == g.y - 14 * n - 6
            && r.page == g.page && r.pageCount == g.pageCount
            && (14 * n + 12 <= Top - Margin ==> r.y >= Margin + 6)
  {
    assert BlockHeight(qLines) + BlockHeight(aLines) == 14 * (|qLines| + |aLines|) + 12;
  }

  /** Every line of the field is drawn on the page the reservation chose. */
  lemma BlockFieldOnePage(f: Flow, qLines: seq<string>, aLines: seq<string>)
    ensures var r := BlockFieldSpec(f, qLines, aLines);
            AddedOn(f.ops, r.ops, r.page)
  {
    var g1 := EnsureSpaceSpec(f, BlockHeight(qLines) + BlockHeight(aLines));
    var g2 := DrawLinesSpec(g1, qLines, Bold);
    var g3 := DrawLinesSpec(g2, aLines, Regular);
    DrawLinesKeeps(g1, qLines, Bold);
    DrawLinesKeeps(g2, aLines, Regular);
    AddedOnTrans(g1.ops, g2.ops, g3.ops, g1.page);
  }
}
