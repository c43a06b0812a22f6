/** The report assembler of src/lib/reports/pdf.ts as the code runs it:
    `buildReportPdf` reassigns `page`, `y` and `qNum` through the
    `ensureSpace` closure, and `drawTable` moves a `yRef` cursor row by row.
    The pdf-lib document is kept as its page count and the log of drawing
    calls made on it.  Every method is proved to follow the layout
    functions of PageLayout. */
module ReportBuilder {
  import opened JsValues
  import opened Schema
  import opened AnswerFormat
  import opened TextWrap
  import opened PageLayout
  import opened ReportLayout

  /** `yRef`: the cursor `drawTable` moves down the page. */
  class Cursor {
    var y: int

    constructor(y0: int)
      ensures y == y0
    {
      y := y0;
    }
  }

  /** The finished document: its pages and every drawing call on them. */
  datatype Document = Document(pageCount: nat, ops: seq<DrawOp>)

  function Rendered(r: Result<Flow>): Result<Document> {
    match r
    case Throws(e) => Throws(e)
    case Ok(f) => Ok(Document(f.pageCount, f.ops))
  }

  /** The state `buildReportPdf` keeps while it lays out the report. */
  class Builder {
    var pageCount: nat
    var page: nat
    var y: int
    var qNum: int
    var ops: seq<DrawOp>
    /** The number and caption of every question placed so far. */
    ghost var headings: seq<(int, string)>
    const metrics: Metrics

    ghost function State(): Flow
      reads this
    {
      Flow(pageCount, page, y, qNum, ops, headings)
    }

    /** Everything but the drawing log is as in `g`. */
    ghost predicate Except(g: Flow)
      reads this
    {
      pageCount == g.pageCount && page == g.page && y == g.y && qNum == g.qNum && headings == g.headings
    }

    /** `PDFDocument.create()` and the first `addPage`, with `y` at the top
        margin. */
    constructor(m: Metrics)
      ensures State() == Start() && metrics == m
    {
      pageCount := 1;
      page := 0;
      y := Top;
      qNum := 1;
      ops := [];
      headings := [];
      metrics := m;
    }

    /** `ensureSpace(needed)`. */
    method EnsureSpace(needed: int)
      modifies this
      ensures State() == EnsureSpaceSpec(old(State()), needed)
    {
      if y - needed < Margin {
        page := pageCount;
        pageCount := pageCount + 1;
        y := Top;
      }
    }

    /** `page.drawText(text, {x, y, size, font})` on page `onPage`. */
    method DrawText(onPage: nat, x: int, atY: int, size: int, font: Font, text: string)
      modifies this
      ensures Except(old(State())) && ops == old(ops) + [TextOp(onPage, x, atY, size, font, text)]
    {
      ops := ops + [TextOp(onPage, x, atY, size, font, text)];
    }

    /** `page.drawRectangle({x, y, width, height})` on page `onPage`. */
    method DrawRectangle(onPage: nat, x: int, atY: int, width: int, height: int)
      modifies this
      ensures Except(old(State())) && ops == old(ops) + [RectOp(onPage, x, atY, width, height)]
    {
      ops := ops + [RectOp(onPage, x, atY, width, height)];
    }

    /** The lines of a question or an answer, at size 11, 14 points apart. */
    method DrawLines(lines: seq<string>, font: Font)
      modifies this
      ensures State() == DrawLinesSpec(old(State()), lines, font)
    {
      ghost var f := State();
      var i := 0;
      while i < |lines|
        invariant 0 <= i <= |lines|
        invariant State() == DrawLinesSpec(f, lines[..i], font)
      {
        assert lines[..i + 1][..i] == lines[..i];
        DrawText(page, Margin, y, 11, font, lines[i]);
        y := y - 14;
        i := i + 1;
      }
      assert lines[..i] == lines;
    }

    /** `rowHeightFor(cells)`, with the maximum taken with one. */
    method RowHeightFor(cells: seq<string>, colW: int) returns (h: int)
      ensures h == RowHeight(cells, colW, metrics)
    {
      ghost var counts := CellLineCounts(cells, colW, metrics);
      var maxLines := 1;
      var i := 0;
      while i < |cells|
        invariant 0 <= i <= |cells|
        invariant maxLines >= 1
        invariant forall k :: 0 <= k < i ==> counts[k] <= maxLines
        invariant maxLines == 1 || exists k :: 0 <= k < i && counts[k] == maxLines
      {
        var lines := Wrap(OrDash(cells[i]), colW - 12, metrics.regular, 10);
        var n := if |lines| > 1 then |lines| else 1;
        assert n == counts[i];
        if n > maxLines {
          maxLines := n;
        }
        i := i + 1;
      }
      MaxUnique(counts, maxLines);
      h := 10 + 15 * maxLines;
    }

    /** The wrapped lines of one cell, size 10, from the baseline
        `yTop - padY - fontSize` down, `lineH` = 15 points apart. */
    method DrawCellLines(tablePage: nat, x: int, yTop: int, font: Font, lines: seq<string>)
      modifies this
      ensures Except(old(State()))
      ensures ops == old(ops) + LineOps(tablePage, x, yTop - 15, 15, 10, font, lines)
    {
      ghost var g := State();
      var ty := yTop - 5 - 10;
      var j := 0;
      while j < |lines|
        invariant 0 <= j <= |lines|
        invariant ty == yTop - 15 - 15 * j
        invariant Except(g)
        invariant ops == g.ops + LineOps(tablePage, x, yTop - 15, 15, 10, font, lines[..j])
      {
        LineOpsSnoc(tablePage, x, yTop - 15, 15, 10, font, lines, j);
        DrawText(tablePage, x, ty, 10, font, lines[j]);
        ty := ty - 15;
        j := j + 1;
      }
      assert lines[..j] == lines;
    }

    /** One cell of `drawRow`: its border, then its text wrapped to the
        column less its padding. */
    method DrawCell(tablePage: nat, yTop: int, rowH: int, colW: int, c: nat, cells: seq<string>, font: Font)
      modifies this
      ensures Except(old(State()))
      ensures ops == old(ops) + CellOps(tablePage, yTop, rowH, colW, c, cells, font, metrics)
    {
      var x := Margin + c * colW;
      DrawRectangle(tablePage, x, yTop - rowH, colW, rowH);
      var lines := Wrap(OrDash(CellAt(cells, c)), colW - 12, FontMeasure(metrics, font), 10);
      DrawCellLines(tablePage, x + 6, yTop, font, lines);
    }

    /** The cells `0 .. colCount - 1` of a row, left to right. */
    method DrawCells(tablePage: nat, yTop: int, rowH: int, colW: int, colCount: nat, cells: seq<string>, font: Font)
      modifies this
      ensures Except(old(State()))
      ensures ops == old(ops) + CellsOps(tablePage, yTop, rowH, colW, colCount, cells, font, metrics)
    {
      ghost var g := State();
      var c := 0;
      while c < colCount
        invariant 0 <= c <= colCount
        invariant Except(g)
        invariant ops == g.ops + CellsOps(tablePage, yTop, rowH, colW, c, cells, font, metrics)
      {
        DrawCell(tablePage, yTop, rowH, colW, c, cells, font);
        CellStep(g.ops, tablePage, yTop, rowH, colW, c, cells, font, metrics);
        c := c + 1;
      }
    }

    /** `drawRow(cells, isHeader)`: the height is reserved against the outer
        `y`, the cells are drawn on `tablePage` from `yRef.y` down, and
        `yRef.y` moves to the bottom of the row. */
    method DrawRow(yRef: Cursor, tablePage: nat, colW: int, colCount: nat, cells: seq<string>, isHeader: bool)
      modifies this, yRef
      ensures TableState(State(), yRef.y)
           == RowSpec(TableState(old(State()), old(yRef.y)), tablePage, colW, colCount, cells, isHeader, metrics)
    {
      var rowH := RowHeightFor(cells, colW);
      EnsureSpace(rowH + 8);
      var font := if isHeader then Bold else Regular;
      DrawCells(tablePage, yRef.y, rowH, colW, colCount, cells, font);
      yRef.y := yRef.y - rowH;
    }

    /** `for (const r of rows) drawRow(r, false)`. */
    method DrawRows(yRef: Cursor, tablePage: nat, colW: int, colCount: nat, rows: seq<seq<string>>)
      modifies this, yRef
      ensures TableState(State(), yRef.y)
           == RowsSpec(TableState(old(State()), old(yRef.y)), tablePage, colW, colCount, rows, metrics)
    {
      ghost var s := TableState(State(), yRef.y);
      var i := 0;
      while i < |rows|
        invariant 0 <= i <= |rows|
        invariant TableState(State(), yRef.y) == RowsSpec(s, tablePage, colW, colCount, rows[..i], metrics)
      {
        RowsSnoc(s, tablePage, colW, colCount, rows, i, metrics);
        DrawRow(yRef, tablePage, colW, colCount, rows[i], false);
        i := i + 1;
      }
      assert rows[..i] == rows;
    }

    /** `drawTable`: the header row in bold, every data row, then 8 points. */
    method DrawTable(yRef: Cursor, tablePage: nat, headers: seq<string>, rows: seq<seq<string>>)
      modifies this, yRef
      ensures TableState(State(), yRef.y) == TableSpec(old(State()), tablePage, old(yRef.y), headers, rows, metrics)
    {
      var colCount := if |headers| > 1 then |headers| else 1;
      var colW := MaxWidth / colCount;
      DrawRow(yRef, tablePage, colW, colCount, headers, true);
      DrawRows(yRef, tablePage, colW, colCount, rows);
      yRef.y := yRef.y - 8;
    }

    /** The title, form id and source lines. */
    method DrawTitle(form: FormSchema)
      modifies this
      ensures State() == TitleSpec(old(State()), form)
    {
      EnsureSpace(40);
      DrawText(page, Margin, y, 16, Bold, form.title);
      y := y - 22;
      DrawText(page, Margin, y, 10, Regular, "Form ID: " + form.id);
      y := y - 14;
      DrawText(page, Margin, y, 10, Regular, "Source: " + form.source.name + " (" + form.source.sourceType + ")");
      y := y - 22;
    }

    /** A section title, bold 12, after reserving 22 points. */
    method DrawSectionTitle(title: string)
      modifies this
      ensures State() == TextSpec(EnsureSpaceSpec(old(State()), 22), 12, Bold, title, 18)
    {
      EnsureSpace(22);
      DrawText(page, Margin, y, 12, Bold, title);
      y := y - 18;
    }

    /** `a.split("\n").flatMap((line) => wrap(line, maxW, regular, 11))`. */
    method AnswerLinesOf(a: string) returns (lines: seq<string>)
      ensures lines == AnswerLines(a, metrics)
    {
      var pieces := Split(a, '\n');
      lines := [];
      var i := 0;
      while i < |pieces|
        invariant 0 <= i <= |pieces|
        invariant lines == WrapAll(pieces[..i], metrics)
      {
        assert pieces[..i + 1][..i] == pieces[..i];
        var more := Wrap(pieces[i], MaxWidth, metrics.regular, 11);
        lines := lines + more;
        i := i + 1;
      }
      assert pieces[..i] == pieces;
    }

    /** A table field below its question lines: the question is reserved
        and drawn, then the rows are read from the answer (which may raise
        the TypeError) and the table drawn from the current baseline. */
    method DrawTableAnswer(qLines: seq<string>, columns: seq<TableColumn>, answer: Value) returns (failed: bool)
      modifies this
      ensures failed <==> TableRows(columns, answer).Throws?
      ensures !failed ==>
                State() == TableFieldSpec(old(State()), qLines, Captions(columns), TableRows(columns, answer).value, metrics)
    {
      EnsureSpace(BlockHeight(qLines));
      DrawLines(qLines, Bold);
      var rows := TableRows(columns, answer);
      if rows.Throws? {
        return true;
      }
      var yRef := new Cursor(y);
      DrawTable(yRef, page, Captions(columns), rows.value);
      y := yRef.y;
      failed := false;
    }

    /** Any other field: its answer is formatted (which may raise the
        TypeError) and wrapped, the question and answer lines are reserved
        together and drawn, then 6 points of space. */
    method DrawTextAnswer(qLines: seq<string>, field: Field, answer: Value) returns (failed: bool)
      modifies this
      ensures failed <==> StringifyAnswer(field, answer).Throws?
      ensures !failed ==>
                State() == BlockFieldSpec(old(State()), qLines, AnswerLines(StringifyAnswer(field, answer).value, metrics))
    {
      var text := StringifyAnswer(field, answer);
      if text.Throws? {
        return true;
      }
      var aLines := AnswerLinesOf(text.value);
      EnsureSpace(BlockHeight(qLines) + BlockHeight(aLines));
      DrawLines(qLines, Bold);
      DrawLines(aLines, Regular);
      y := y - 6;
      failed := false;
    }

    /** `${qNum}. ${field.label}`, and its lines wrapped in bold 11. */
    method Question(field: Field) returns (q: string, qLines: seq<string>)
      ensures q == QuestionText(qNum, field.caption)
      ensures qLines == QuestionLines(State(), field, metrics)
    {
      q := IntToString(qNum) + ". " + field.caption;
      qLines := Wrap(q, MaxWidth, metrics.bold, 11);
    }

    /** `qNum++`, recording the question just placed. */
    method Number(field: Field)
      modifies this
      ensures State() == old(State()).(qNum := old(qNum) + 1, headings := old(headings) + [(old(qNum), field.caption)])
    {
      headings := headings + [(qNum, field.caption)];
      qNum := qNum + 1;
    }

    /** A table field: its question, then its table; `failed` reports the
        TypeError its rows raise. */
    method DrawTableField(field: Field, answers: FormAnswers) returns (failed: bool)
      requires field.kind.Table?
      modifies this
      ensures var rows := TableRows(field.kind.columns, AnswerOf(answers, field.id));
              && (failed <==> rows.Throws?)
              && (!failed ==> State() == Numbered(TableFieldSpec(old(State()), QuestionLines(old(State()), field, metrics),
                                                                 Captions(field.kind.columns), rows.value, metrics),
                                                  old(State()), field))
    {
      var q, qLines := Question(field);
      failed := DrawTableAnswer(qLines, field.kind.columns, AnswerOf(answers, field.id));
      if !failed {
        Number(field);
      }
    }

    /** Any other field: its question, then its answer; `failed` reports the
        TypeError formatting the answer raises. */
    method DrawTextField(field: Field, answers: FormAnswers) returns (failed: bool)
      requires !field.kind.Table?
      modifies this
      ensures var text := StringifyAnswer(field, AnswerOf(answers, field.id));
              && (failed <==> text.Throws?)
              && (!failed ==> State() == Numbered(BlockFieldSpec(old(State()), QuestionLines(old(State()), field, metrics),
                                                                 AnswerLines(text.value, metrics)),
                                                  old(State()), field))
    {
      var q, qLines := Question(field);
      failed := DrawTextAnswer(qLines, field, AnswerOf(answers, field.id));
      if !failed {
        Number(field);
      }
    }

    /** One field as `place` states it: `failed` reports the TypeError the
        field raises, and otherwise the state is the field placed. */
    method DrawField(field: Field, answers: FormAnswers, ghost place: Placer) returns (failed: bool)
      requires ReportStep(place, answers, metrics)
      modifies this
      ensures var r := place(old(State()), field);
              && (failed <==> r.Throws?)
              && (!failed ==> r == Ok(State()))
    {
      if field.kind.Table? {
        FieldStepTable(place, State(), field, answers, metrics);
        failed := DrawTableField(field, answers);
      } else {
        FieldStepBlock(place, State(), field, answers, metrics);
        failed := DrawTextField(field, answers);
      }
    }

    /** The fields of one section in order, stopping at the first that
        throws. */
    method DrawFields(fields: seq<Field>, answers: FormAnswers, ghost place: Placer) returns (failed: bool)
      requires ReportStep(place, answers, metrics)
      modifies this
      ensures var r := FieldsSpec(old(State()), fields, place);
              && (failed <==> r.Throws?)
              && (!failed ==> r == Ok(State()))
    {
      ghost var f := State();
      var j := 0;
      while j < |fields|
        invariant 0 <= j <= |fields|
        invariant FieldsSpec(f, fields[..j], place) == Ok(State())
      {
        assert fields[..j + 1][..j] == fields[..j];
        failed := DrawField(fields[j], answers, place);
        if failed {
          FieldsThrowOn(f, fields, j + 1, place);
          return;
        }
        j := j + 1;
      }
      assert fields[..j] == fields;
      failed := false;
    }

    /** Every section in order, stopping at the first field that throws. */
    method DrawSections(sections: seq<FormSection>, answers: FormAnswers, ghost place: Placer) returns (failed: bool)
      requires ReportStep(place, answers, metrics)
      modifies this
      ensures var r := SectionsSpec(old(State()), sections, place);
              && (failed <==> r.Throws?)
              && (!failed ==> r == Ok(State()))
    {
      ghost var f := State();
      var i := 0;
      while i < |sections|
        invariant 0 <= i <= |sections|
        invariant SectionsSpec(f, sections[..i], place) == Ok(State())
      {
        assert sections[..i + 1][..i] == sections[..i];
        failed := DrawSection(sections[i], answers, place);
        if failed {
          SectionsThrowOn(f, sections, i + 1, place);
          return;
        }
        i := i + 1;
      }
      assert sections[..i] == sections;
      failed := false;
    }

    /** One section: its title, its fields, then 8 points of space. */
    method DrawSection(section: FormSection, answers: FormAnswers, ghost place: Placer) returns (failed: bool)
      requires ReportStep(place, answers, metrics)
      modifies this
      ensures var r := SectionSpec(old(State()), section, place);
              && (failed <==> r.Throws?)
              && (!failed ==> r == Ok(State()))
    {
      DrawSectionTitle(section.title);
      failed := DrawFields(section.fields, answers, place);
      if !failed {
        y := y - 8;
      }
    }
  }

  lemma LineOpsSnoc(page: nat, x: int, y0: int, step: int, size: int, font: Font, lines: seq<string>, j: nat)
    requires j < |lines|
    ensures LineOps(page, x, y0, step, size, font, lines[..j + 1])
         == LineOps(page, x, y0, step, size, font, lines[..j]) + [TextOp(page, x, y0 - step * j, size, font, lines[j])]
  {
    assert lines[..j + 1][..j] == lines[..j];
  }

  lemma CellStep(ops0: seq<DrawOp>, page: nat, yTop: int, rowH: int, colW: int, c: nat, cells: seq<string>,
                 font: Font, m: Metrics)
    ensures ops0 + CellsOps(page, yTop, rowH, colW, c, cells, font, m) + CellOps(page, yTop, rowH, colW, c, cells, font, m)
         == ops0 + CellsOps(page, yTop, rowH, colW, c + 1, cells, font, m)
  {
    var a := CellsOps(page, yTop, rowH, colW, c, cells, font, m);
    var b := CellOps(page, yTop, rowH, colW, c, cells, font, m);
    assert ops0 + a + b == ops0 + (a + b);
  }

  /** Three values that bound a list from above, are at least one, and are
      one of its entries (or one) are the same value. */
  lemma MaxUnique(xs: seq<int>, a: int)
    requires a >= 1 && forall k :: 0 <= k < |xs| ==> xs[k] <= a
    requires a == 1 || exists k :: 0 <= k < |xs| && xs[k] == a
    ensures a == MaxAtLeastOne(xs)
  {
    var b := MaxAtLeastOne(xs);
    MaxAtLeastOneIsMax(xs);
    if a != 1 {
      var k :| 0 <= k < |xs| && xs[k] == a;
      assert a <= b;
    }
    if b != 1 {
      var k :| 0 <= k < |xs| && xs[k] == b;
      assert b <= a;
    }
  }

  /** Once a prefix of the fields throws, so do the fields. */
  lemma {:induction false} FieldsThrowOn(f: Flow, fields: seq<Field>, i: nat, place: Placer)
    requires i <= |fields|
    requires FieldsSpec(f, fields[..i], place).Throws?
    ensures FieldsSpec(f, fields, place).Throws?
    decreases |fields|
  {
    if i < |fields| {
      var n := |fields| - 1;
      assert fields[..n][..i] == fields[..i];
      FieldsThrowOn(f, fields[..n], i, place);
    } else {
      assert fields[..i] == fields;
    }
  }

  lemma {:induction false} SectionsThrowOn(f: Flow, sections: seq<FormSection>, i: nat, place: Placer)
    requires i <= |sections|
    requires SectionsSpec(f, sections[..i], place).Throws?
    ensures SectionsSpec(f, sections, place).Throws?
    decreases |sections|
  {
    if i < |sections| {
      var n := |sections| - 1;
      assert sections[..n][..i] == sections[..i];
      SectionsThrowOn(f, sections[..n], i, place);
    } else {
      assert sections[..i] == sections;
    }
  }

  /** `buildReportPdf(form, answers)`: the title block, then every section
      and every field in order; the first TypeError rejects the report. */
  method BuildReport(form: FormSchema, answers: FormAnswers, m: Metrics) returns (r: Result<Document>)
    ensures r == Rendered(ReportSpec(form, answers, m))
  {
    var b := new Builder(m);
    b.DrawTitle(form);
    FieldStepIsReportStep(answers, m);
    var failed := b.DrawSections(form.sections, answers, FieldStep(Contents(answers, m), m));
    if failed {
      return Throws(TypeError);
    }
    r := Ok(Document(b.pageCount, b.ops));
  }
}
