/** The report as a whole (`buildReportPdf` in src/lib/reports/pdf.ts):
    the title block, then every section with its title and its fields,
    each field headed by its question number.  The sections and fields are
    folded with a step that places one field; the properties of the fold are
    proved for any step with the matching property, and the step of the
    report is shown to have each of them. */
module ReportLayout {
  import opened JsValues
  import opened Schema
  import opened AnswerFormat
  import opened TextWrap
  import opened PageLayout

  /** What a field shows under its question: a table, or the wrapped lines
      of its formatted answer. */
  datatype Content =
    | TableContent(headers: seq<string>, rows: seq<seq<string>>)
    | TextContent(lines: seq<string>)

  /** Whether computing the content of `field` raises a TypeError. */
  predicate FieldThrows(field: Field, answers: FormAnswers) {
    if field.kind.Table? then TableRows(field.kind.columns, AnswerOf(answers, field.id)).Throws?
    else StringifyAnswer(field, AnswerOf(answers, field.id)).Throws?
  }

  /** The content of one field: the column captions and cell texts of a
      table field, or the formatted answer split at line breaks and
      wrapped, for every other kind. */
  function Placement(field: Field, answers: FormAnswers, m: Metrics): (r: Result<Content>)
    ensures r.Throws? <==> FieldThrows(field, answers)
    ensures r.Ok? ==> (r.value.TableContent? <==> field.kind.Table?)
  {
    var answer := AnswerOf(answers, field.id);
    if field.kind.Table? then
      match TableRows(field.kind.columns, answer)
      case Throws(e) => Throws(e)
      case Ok(rows) => Ok(TableContent(Captions(field.kind.columns), rows))
    else
      match StringifyAnswer(field, answer)
      case Throws(e) => Throws(e)
      case Ok(a) => Ok(TextContent(AnswerLines(a, m)))
  }

  /** The content of every field, as the answers give it. */
  function Contents(answers: FormAnswers, m: Metrics): Field -> Result<Content> {
    field => Placement(field, answers, m)
  }

  /** `${qNum}. ${field.label}`. */
  function QuestionText(qNum: int, caption: string): string {
    IntToString(qNum) + ". " + caption
  }

  /** The question of a field, headed by the current number and wrapped in
      bold. */
  function QuestionLines(f: Flow, field: Field, m: Metrics): seq<string> {
    WrapLines(QuestionText(f.qNum, field.caption), MaxWidth, m.bold, 11)
  }

  /** `qNum++` once the field is placed; the number it was given is
      recorded with its caption. */
  function Numbered(g: Flow, f: Flow, field: Field): (r: Flow) {
    g.(qNum := g.qNum + 1, headings := g.headings + [(f.qNum, field.caption)])
  }

  /** One field placed with its content: its question wrapped in bold, then
      the table or the answer lines; `qNum` goes up by one. */
  function FieldFlow(f: Flow, field: Field, c: Content, m: Metrics): (r: Flow)
    ensures r.qNum == f.qNum + 1
    ensures r.headings == f.headings + [(f.qNum, field.caption)]
  {
    var qLines := QuestionLines(f, field, m);
    var g :=
      match c
      case TableContent(headers, rows) => TableFieldSpec(f, qLines, headers, rows, m)
      case TextContent(aLines) => BlockFieldSpec(f, qLines, aLines);
    Numbered(g, f, field)
  }

  /** Placing a field only adds drawing calls and keeps the state valid. */
  lemma FieldKeeps(f: Flow, field: Field, c: Content, m: Metrics)
    ensures Extends(f, FieldFlow(f, field, c, m))
  {
    var qLines := QuestionLines(f, field, m);
    var g :=
      match c
      case TableContent(headers, rows) => TableFieldSpec(f, qLines, headers, rows, m)
      case TextContent(aLines) => BlockFieldSpec(f, qLines, aLines);
    match c
    case TableContent(headers, rows) => TableFieldKeeps(f, qLines, headers, rows, m);
    case TextContent(aLines) => BlockFieldKeeps(f, qLines, aLines);
    assert Extends(g, FieldFlow(f, field, c, m));
    ExtendsTrans(f, g, FieldFlow(f, field, c, m));
  }

  /** The first drawing calls after `before` write `lines`, one bold line
      each, in order. */
  ghost predicate DrawsBold(before: seq<DrawOp>, ops: seq<DrawOp>, lines: seq<string>) {
    && |before| + |lines| <= |ops|
    && forall k :: 0 <= k < |lines| ==>
         ops[|before| + k].TextOp? && ops[|before| + k].font == Bold && ops[|before| + k].text == lines[k]
  }

  /** Lines drawn right after a reservation come first among the calls
      that follow, whatever is drawn after them. */
  lemma LinesDrawnFirst(f: Flow, needed: int, lines: seq<string>, ops: seq<DrawOp>)
    requires DrawLinesSpec(EnsureSpaceSpec(f, needed), lines, Bold).ops <= ops
    ensures DrawsBold(f.ops, ops, lines)
  {
    var g1 := EnsureSpaceSpec(f, needed);
    var xs := LineOps(g1.page, Margin, g1.y, 14, 11, Bold, lines);
    LineOpsAt(g1.page, Margin, g1.y, 14, 11, Bold, lines);
    assert forall k :: 0 <= k < |lines| ==> ops[|f.ops| + k] == (f.ops + xs)[|f.ops| + k] == xs[k];
  }

  /** The heading a field records is the one it draws: its first drawing
      calls are the bold lines of "n. label" for the number and caption
      recorded last. */
  lemma FieldHeadingDrawn(f: Flow, field: Field, c: Content, m: Metrics)
    ensures var r := FieldFlow(f, field, c, m);
            var h := r.headings[|r.headings| - 1];
            DrawsBold(f.ops, r.ops, WrapLines(QuestionText(h.0, h.1), MaxWidth, m.bold, 11))
  {
    var qLines := QuestionLines(f, field, m);
    match c
    case TableContent(headers, rows) =>
      var g1 := EnsureSpaceSpec(f, BlockHeight(qLines));
      var g2 := DrawLinesSpec(g1, qLines, Bold);
      TableGeometry(g2, headers, rows, m);
      LinesDrawnFirst(f, BlockHeight(qLines), qLines, TableFieldSpec(f, qLines, headers, rows, m).ops);
    case TextContent(aLines) =>
      var g1 := EnsureSpaceSpec(f, BlockHeight(qLines) + BlockHeight(aLines));
      var g2 := DrawLinesSpec(g1, qLines, Bold);
      DrawLinesKeeps(g2, aLines, Regular);
      LinesDrawnFirst(f, BlockHeight(qLines) + BlockHeight(aLines), qLines, BlockFieldSpec(f, qLines, aLines).ops);
  }

  /** A table field of the report: it throws when its rows do, and is
      otherwise its question and its table. */
  lemma FieldStepTable(place: Placer, f: Flow, field: Field, answers: FormAnswers, m: Metrics)
    requires ReportStep(place, answers, m) && field.kind.Table?
    ensures var r := place(f, field);
            var rows := TableRows(field.kind.columns, AnswerOf(answers, field.id));
            && (r.Throws? <==> rows.Throws?)
            && (r.Ok? ==> r.value == Numbered(TableFieldSpec(f, QuestionLines(f, field, m),
                                                Captions(field.kind.columns), rows.value, m), f, field))
  {
    assert Placed(place, f, field) == place(f, field);
  }

  /** Any other field: it throws when its answer does not format, and is
      otherwise its question and its answer lines. */
  lemma FieldStepBlock(place: Placer, f: Flow, field: Field, answers: FormAnswers, m: Metrics)
    requires ReportStep(place, answers, m) && !field.kind.Table?
    ensures var r := place(f, field);
            var text := StringifyAnswer(field, AnswerOf(answers, field.id));
            && (r.Throws? <==> text.Throws?)
            && (r.Ok? ==> r.value == Numbered(BlockFieldSpec(f, QuestionLines(f, field, m),
                                                AnswerLines(text.value, m)), f, field))
  {
    assert Placed(place, f, field) == place(f, field);
  }

  /** One field of a section, or the TypeError its content raises. */
  function FieldSpec(f: Flow, field: Field, content: Field -> Result<Content>, m: Metrics): Result<Flow> {
    match content(field)
    case Throws(e) => Throws(e)
    case Ok(c) => Ok(FieldFlow(f, field, c, m))
  }

  /** A way of placing one field in the current state. */
  type Placer = (Flow, Field) -> Result<Flow>

  function FieldStep(content: Field -> Result<Content>, m: Metrics): Placer {
    (f, field) => FieldSpec(f, field, content, m)
  }

  /** `place` applied to one field, named so that the property below is
      used only where a proof asks for it. */
  ghost function Placed(place: Placer, f: Flow, field: Field): Result<Flow> {
    place(f, field)
  }

  /** `place` places every field as the report does for these answers. */
  ghost predicate ReportStep(place: Placer, answers: FormAnswers, m: Metrics) {
    forall f, field {:trigger Placed(place, f, field)} ::
      Placed(place, f, field) == FieldSpec(f, field, Contents(answers, m), m)
  }

  lemma FieldStepIsReportStep(answers: FormAnswers, m: Metrics)
    ensures ReportStep(FieldStep(Contents(answers, m), m), answers, m)
  {
  }

  /** `for (const field of section.fields) { ... }`: the fields in order,
      stopping at the first that throws. */
  function FieldsSpec(f: Flow, fields: seq<Field>, place: Placer): Result<Flow> {
    if fields == [] then Ok(f)
    else
      var n := |fields| - 1;
      match FieldsSpec(f, fields[..n], place)
      case Throws(e) => Throws(e)
      case Ok(g) => place(g, fields[n])
  }

  /** One section: its title in bold 12 after reserving 22 points, its
      fields, then 8 points of space. */
  function SectionSpec(f: Flow, section: FormSection, place: Placer): Result<Flow> {
    var g := EnsureSpaceSpec(f, 22);
    var g1 := TextSpec(g, 12, Bold, section.title, 18);
    match FieldsSpec(g1, section.fields, place)
    case Throws(e) => Throws(e)
    case Ok(h) => Ok(h.(y := h.y - 8))
  }

  /** `for (const section of form.sections) { ... }`. */
  function SectionsSpec(f: Flow, sections: seq<FormSection>, place: Placer): Result<Flow> {
    if sections == [] then Ok(f)
    else
      var n := |sections| - 1;
      match SectionsSpec(f, sections[..n], place)
      case Throws(e) => Throws(e)
      case Ok(g) => SectionSpec(g, sections[n], place)
  }

  /** `buildReportPdf`: the title block, then every section. */
  function ReportSpec(form: FormSchema, answers: FormAnswers, m: Metrics): Result<Flow> {
    SectionsSpec(TitleSpec(Start(), form), form.sections, FieldStep(Contents(answers, m), m))
  }

  /** The step throws exactly when the content of the field does. */
  ghost predicate ThrowsOn(place: Placer, content: Field -> Result<Content>) {
    forall g, field :: place(g, field).Throws? <==> content(field).Throws?
  }

  /** A placed field takes the next question number and heading. */
  ghost predicate Numbers(place: Placer) {
    forall g, field :: place(g, field).Ok? ==>
      && place(g, field).value.qNum == g.qNum + 1
      && place(g, field).value.headings == g.headings + [(g.qNum, field.caption)]
  }

  /** A placed field only adds drawing calls, on pages that exist. */
  ghost predicate Keeps(place: Placer) {
    forall g, field :: place(g, field).Ok? ==> Extends(g, place(g, field).value)
  }

  lemma FieldStepThrows(content: Field -> Result<Content>, m: Metrics)
    ensures ThrowsOn(FieldStep(content, m), content)
  {
  }

  lemma FieldStepNumbers(content: Field -> Result<Content>, m: Metrics)
    ensures Numbers(FieldStep(content, m))
  {
  }

  lemma FieldStepKeeps(content: Field -> Result<Content>, m: Metrics)
    ensures Keeps(FieldStep(content, m))
  {
    forall g, field | FieldStep(content, m)(g, field).Ok?
      ensures Extends(g, FieldStep(content, m)(g, field).value)
    {
      FieldKeeps(g, field, content(field).value, m);
    }
  }

  /** The numbers and captions of `fields`, numbered from `first`. */
  function Questions(fields: seq<Field>, first: int): (r: seq<(int, string)>)
    ensures |r| == |fields|
    ensures forall k :: 0 <= k < |r| ==> r[k] == (first + k, fields[k].caption)
  {
    if fields == [] then []
    else
      var n := |fields| - 1;
      Questions(fields[..n], first) + [(first + n, fields[n].caption)]
  }

  /** Whether the content of some field of `fields` throws. */
  predicate SomeThrows(fields: seq<Field>, content: Field -> Result<Content>) {
    exists k :: 0 <= k < |fields| && content(fields[k]).Throws?
  }

  lemma SomeThrowsConcat(a: seq<Field>, b: seq<Field>, content: Field -> Result<Content>)
    ensures SomeThrows(a + b, content) <==> SomeThrows(a, content) || SomeThrows(b, content)
  {
    if SomeThrows(a, content) {
      var k :| 0 <= k < |a| && content(a[k]).Throws?;
      assert (a + b)[k] == a[k];
    }
    if SomeThrows(b, content) {
      var k :| 0 <= k < |b| && content(b[k]).Throws?;
      assert (a + b)[|a| + k] == b[k];
    }
    if SomeThrows(a + b, content) && !SomeThrows(a, content) {
      var k :| 0 <= k < |a + b| && content((a + b)[k]).Throws?;
      assert k >= |a| ==> (a + b)[k] == b[k - |a|];
    }
  }

  lemma {:induction false} QuestionsConcat(a: seq<Field>, b: seq<Field>, first: int)
    ensures Questions(a + b, first) == Questions(a, first) + Questions(b, first + |a|)
    decreases |b|
  {
    if b != [] {
      var n := |b| - 1;
      QuestionsConcat(a, b[..n], first);
      assert (a + b)[..|a| + n] == a + b[..n];
    }
  }

  /** Placing the fields of a section throws exactly when one of them does. */
  lemma {:induction false} FieldsThrow(f: Flow, fields: seq<Field>, place: Placer, content: Field -> Result<Content>)
    requires ThrowsOn(place, content)
    ensures FieldsSpec(f, fields, place).Throws? <==> SomeThrows(fields, content)
  {
    if fields != [] {
      var n := |fields| - 1;
      FieldsThrow(f, fields[..n], place, content);
      SomeThrowsConcat(fields[..n], [fields[n]], content);
      assert fields[..n] + [fields[n]] == fields;
    }
  }

  /** `qNum` goes up by exactly one per field. */
  lemma {:induction false} FieldsCount(f: Flow, fields: seq<Field>, place: Placer)
    requires Numbers(place)
    ensures var r := FieldsSpec(f, fields, place);
            r.Ok? ==> r.value.qNum == f.qNum + |fields|
  {
    if fields != [] {
      FieldsCount(f, fields[..|fields| - 1], place);
    }
  }

  /** Every field takes the next question number, across page breaks. */
  lemma {:induction false} FieldsNumbering(f: Flow, fields: seq<Field>, place: Placer)
    requires Numbers(place)
    ensures var r := FieldsSpec(f, fields, place);
            r.Ok? ==> r.value.headings == f.headings + Questions(fields, f.qNum)
  {
    if fields != [] {
      var n := |fields| - 1;
      var r0 := FieldsSpec(f, fields[..n], place);
      if r0.Ok? {
        var g := r0.value;
        assert g.qNum == f.qNum + n by {
          FieldsCount(f, fields[..n], place);
        }
        assert g.headings == f.headings + Questions(fields[..n], f.qNum) by {
          FieldsNumbering(f, fields[..n], place);
        }
        assert Questions(fields, f.qNum) == Questions(fields[..n], f.qNum) + [(g.qNum, fields[n].caption)];
      }
    }
  }

  /** Placing fields only adds drawing calls, all on pages that exist. */
  lemma {:induction false} FieldsKeepValid(f: Flow, fields: seq<Field>, place: Placer)
    requires Keeps(place)
    ensures var r := FieldsSpec(f, fields, place);
            r.Ok? ==> Extends(f, r.value)
  {
    if fields != [] {
      var n := |fields| - 1;
      FieldsKeepValid(f, fields[..n], place);
      var r0 := FieldsSpec(f, fields[..n], place);
      if r0.Ok? {
        var r := place(r0.value, fields[n]);
        if r.Ok? {
          ExtendsTrans(f, r0.value, r.value);
        }
      }
    }
  }

  lemma {:induction false} SectionsThrow(f: Flow, sections: seq<FormSection>, place: Placer, content: Field -> Result<Content>)
    requires ThrowsOn(place, content)
    ensures SectionsSpec(f, sections, place).Throws? <==> SomeThrows(AllFields(sections), content)
  {
    if sections != [] {
      var n := |sections| - 1;
      SectionsThrow(f, sections[..n], place, content);
      SomeThrowsConcat(AllFields(sections[..n]), sections[n].fields, content);
      match SectionsSpec(f, sections[..n], place)
      case Throws(_) =>
      case Ok(g) =>
        FieldsThrow(TextSpec(EnsureSpaceSpec(g, 22), 12, Bold, sections[n].title, 18), sections[n].fields, place, content);
    }
  }

  lemma AppendAssoc<T>(fh: seq<T>, gh: seq<T>, rh: seq<T>, qa: seq<T>, qb: seq<T>, qall: seq<T>)
    requires gh == fh + qa && rh == gh + qb && qall == qa + qb
    ensures rh == fh + qall
  {
  }

  /** One section numbers its fields on from the current `qNum`. */
  lemma SectionNumbering(f: Flow, section: FormSection, place: Placer)
    requires Numbers(place)
    ensures var r := SectionSpec(f, section, place);
            r.Ok? ==>
              && r.value.qNum == f.qNum + |section.fields|
              && r.value.headings == f.headings + Questions(section.fields, f.qNum)
  {
    var g1 := TextSpec(EnsureSpaceSpec(f, 22), 12, Bold, section.title, 18);
    FieldsCount(g1, section.fields, place);
    FieldsNumbering(g1, section.fields, place);
  }

  lemma {:induction false} SectionsCount(f: Flow, sections: seq<FormSection>, place: Placer)
    requires Numbers(place)
    ensures var r := SectionsSpec(f, sections, place);
            r.Ok? ==> r.value.qNum == f.qNum + |AllFields(sections)|
  {
    if sections != [] {
      var n := |sections| - 1;
      SectionsCount(f, sections[..n], place);
      var r0 := SectionsSpec(f, sections[..n], place);
      if r0.Ok? {
        SectionNumbering(r0.value, sections[n], place);
      }
    }
  }

  lemma {:induction false} SectionsNumbering(f: Flow, sections: seq<FormSection>, place: Placer)
    requires Numbers(place)
    ensures var r := SectionsSpec(f, sections, place);
            r.Ok? ==> r.value.headings == f.headings + Questions(AllFields(sections), f.qNum)
  {
    if sections != [] {
      var n := |sections| - 1;
      var r0 := SectionsSpec(f, sections[..n], place);
      if r0.Ok? {
        var g := r0.value;
        var before := AllFields(sections[..n]);
        var fields := sections[n].fields;
        assert g.qNum == f.qNum + |before| by {
          SectionsCount(f, sections[..n], place);
        }
        assert g.headings == f.headings + Questions(before, f.qNum) by {
          SectionsNumbering(f, sections[..n], place);
        }
        var r1 := SectionSpec(g, sections[n], place);
        assert SectionsSpec(f, sections, place) == r1;
        SectionNumbering(g, sections[n], place);
        if r1.Ok? {
          QuestionsConcat(before, fields, f.qNum);
          assert AllFields(sections) == before + fields;
          AppendAssoc(f.headings, g.headings, r1.value.headings, Questions(before, f.qNum),
                      Questions(fields, g.qNum), Questions(AllFields(sections), f.qNum));
        }
      }
    }
  }

  lemma SectionKeeps(f: Flow, section: FormSection, place: Placer)
    requires Keeps(place)
    ensures var r := SectionSpec(f, section, place);
            r.Ok? ==> Extends(f, r.value)
  {
    var g := EnsureSpaceSpec(f, 22);
    var g1 := TextSpec(g, 12, Bold, section.title, 18);
    EnsureSpaceKeeps(f, 22);
    TextKeeps(g, 12, Bold, section.title, 18);
    ExtendsTrans(f, g, g1);
    FieldsKeepValid(g1, section.fields, place);
    match FieldsSpec(g1, section.fields, place)
    case Throws(_) =>
    case Ok(h) =>
      ExtendsTrans(f, g1, h);
      assert Extends(h, h.(y := h.y - 8));
      ExtendsTrans(f, h, h.(y := h.y - 8));
  }

  lemma {:induction false} SectionsKeepValid(f: Flow, sections: seq<FormSection>, place: Placer)
    requires Keeps(place)
    ensures var r := SectionsSpec(f, sections, place);
            r.Ok? ==> Extends(f, r.value)
  {
    if sections != [] {
      var n := |sections| - 1;
      SectionsKeepValid(f, sections[..n], place);
      match SectionsSpec(f, sections[..n], place)
      case Throws(_) =>
      case Ok(g) =>
        SectionKeeps(g, sections[n], place);
        var r := SectionSpec(g, sections[n], place);
        if r.Ok? {
          ExtendsTrans(f, g, r.value);
        }
    }
  }

  /** Whether some field of `fields` raises a TypeError on `answers`. */
  predicate AnyFieldThrows(fields: seq<Field>, answers: FormAnswers) {
    exists k :: 0 <= k < |fields| && FieldThrows(fields[k], answers)
  }

  /** The report fails (the promise rejects with a TypeError) exactly when
      some field in the form does. */
  lemma ReportThrows(form: FormSchema, answers: FormAnswers, m: Metrics)
    ensures ReportSpec(form, answers, m).Throws? <==> AnyFieldThrows(AllFields(form.sections), answers)
  {
    var content := Contents(answers, m);
    var fields := AllFields(form.sections);
    FieldStepThrows(content, m);
    SectionsThrow(TitleSpec(Start(), form), form.sections, FieldStep(content, m), content);
    assert forall k :: 0 <= k < |fields| ==> (content(fields[k]).Throws? <==> FieldThrows(fields[k], answers));
  }

  /** The k-th field of the form, in document order and of whatever kind,
      is headed "k. label". */
  lemma ReportNumbering(form: FormSchema, answers: FormAnswers, m: Metrics)
    ensures var r := ReportSpec(form, answers, m);
            r.Ok? ==>
              && r.value.headings == Questions(AllFields(form.sections), 1)
              && r.value.qNum == 1 + |AllFields(form.sections)|
  {
    var place := FieldStep(Contents(answers, m), m);
    FieldStepNumbers(Contents(answers, m), m);
    SectionsCount(TitleSpec(Start(), form), form.sections, place);
    SectionsNumbering(TitleSpec(Start(), form), form.sections, place);
  }

  /** A finished report has at least one page, and every drawing call is on
      one of its pages. */
  lemma ReportValid(form: FormSchema, answers: FormAnswers, m: Metrics)
    ensures var r := ReportSpec(form, answers, m);
            r.Ok? ==> Valid(r.value)
  {
    var place := FieldStep(Contents(answers, m), m);
    var t := TitleSpec(Start(), form);
    FieldStepKeeps(Contents(answers, m), m);
    TitleKeeps(Start(), form);
    SectionsKeepValid(t, form.sections, place);
    var r := ReportSpec(form, answers, m);
    if r.Ok? {
      ExtendsTrans(Start(), t, r.value);
    }
  }
}
