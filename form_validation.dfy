/** The required-field rules of the form wizard (`isFilled`,
    `isSectionValid`, `isFormValid` in src/components/forms/FormWizard.tsx)
    and the navigation flags the wizard derives from them. */
module FormValidation {
  import opened JsValues
  import opened Schema

  /** `xs.every(p)` for a test that may throw: the first test that throws
      or fails decides, and the later ones are not run. */
  function Every<T>(xs: seq<T>, p: T -> Result<bool>): Result<bool>
    decreases |xs|
  {
    if xs == [] then Ok(true)
    else
      match p(xs[0])
      case Throws(e) => Throws(e)
      case Ok(b) => if b then Every(xs[1..], p) else Ok(false)
  }

  /** `every` holds exactly when every test holds. */
  lemma {:induction false} EveryTrue<T>(xs: seq<T>, p: T -> Result<bool>)
    ensures Every(xs, p) == Ok(true) <==> forall k :: 0 <= k < |xs| ==> p(xs[k]) == Ok(true)
    decreases |xs|
  {
    if xs != [] {
      EveryTrue(xs[1..], p);
      assert forall k :: 1 <= k < |xs| ==> xs[1..][k - 1] == xs[k];
    }
  }

  /** `every` throws exactly when some test throws and every test before
      it holds. */
  lemma {:induction false} EveryThrows<T>(xs: seq<T>, p: T -> Result<bool>)
    ensures Every(xs, p).Throws? <==>
            exists k :: 0 <= k < |xs| && p(xs[k]).Throws? && forall j :: 0 <= j < k ==> p(xs[j]) == Ok(true)
    decreases |xs|
  {
    if xs != [] {
      EveryThrows(xs[1..], p);
      var rest := xs[1..];
      if Every(xs, p).Throws? && !p(xs[0]).Throws? {
        var k :| 0 <= k < |rest| && p(rest[k]).Throws? && forall j :: 0 <= j < k ==> p(rest[j]) == Ok(true);
        assert forall j :: 1 <= j < k + 1 ==> xs[j] == rest[j - 1];
        assert xs[k + 1] == rest[k];
      }
      if exists k :: 0 <= k < |xs| && p(xs[k]).Throws? && forall j :: 0 <= j < k ==> p(xs[j]) == Ok(true) {
        var k :| 0 <= k < |xs| && p(xs[k]).Throws? && forall j :: 0 <= j < k ==> p(xs[j]) == Ok(true);
        if k > 0 {
          assert p(xs[0]) == Ok(true);
          assert rest[k - 1] == xs[k];
          assert forall j :: 0 <= j < k - 1 ==> rest[j] == xs[j + 1];
        }
      }
    }
  }

  /** When no test throws, `every` is the conjunction of the tests. */
  lemma {:induction false} EveryNoThrow<T>(xs: seq<T>, p: T -> Result<bool>)
    requires forall k :: 0 <= k < |xs| ==> p(xs[k]).Ok?
    ensures Every(xs, p) == Ok(forall k :: 0 <= k < |xs| ==> p(xs[k]).value)
    decreases |xs|
  {
    if xs != [] {
      assert forall k :: 0 <= k < |xs[1..]| ==> xs[1..][k] == xs[k + 1];
      EveryNoThrow(xs[1..], p);
      assert forall k :: 1 <= k < |xs| ==> xs[1..][k - 1] == xs[k];
    }
  }

  /** `typeof v === "string" && v.trim().length > 0`. */
  predicate NonBlankString(v: Value) {
    v.Str? && Trim(v.s) != []
  }

  /** A string is non-blank exactly when some character of it is not
      whitespace. */
  lemma NonBlankStringMeans(v: Value)
    ensures NonBlankString(v) <==> v.Str? && !AllWs(v.s)
  {
    if v.Str? {
      TrimBlank(v.s);
    }
  }

  /** A required column of one row: a multi-text cell is a non-empty array,
      a text or date cell a non-blank string. */
  predicate CellFilled(kind: ColumnKind, cell: Value) {
    match kind
    case MultiTextColumn => cell.Arr? && cell.items != []
    case DateColumn => NonBlankString(cell)
    case TextColumn => NonBlankString(cell)
  }

  /** The test of one column on one row: an optional column holds; a
      required one reads `row[col.id]`, which throws on a null or undefined
      row. */
  function ColumnCheck(col: TableColumn, row: Value): (r: Result<bool>)
    ensures r.Throws? <==> col.required && IsNullish(row)
  {
    if !col.required then Ok(true)
    else
      match Get(row, col.id)
      case Throws(e) => Throws(e)
      case Ok(cell) => Ok(CellFilled(col.kind, cell))
  }

  /** `field.columns.every(...)` on one row. */
  function RowCheck(columns: seq<TableColumn>, row: Value): Result<bool> {
    Every(columns, (col: TableColumn) => ColumnCheck(col, row))
  }

  /** The test `rows.every` applies to each row. */
  function RowTest(columns: seq<TableColumn>): Value -> Result<bool> {
    (row: Value) => RowCheck(columns, row)
  }

  /** A row passes exactly when it satisfies every required column; a null
      or undefined row passes only when no column is required. */
  lemma RowCheckPasses(columns: seq<TableColumn>, row: Value)
    ensures RowCheck(columns, row) == Ok(true) <==>
            forall k :: 0 <= k < |columns| && columns[k].required ==>
              !IsNullish(row) && CellFilled(columns[k].kind, Get(row, columns[k].id).value)
  {
    var p := (col: TableColumn) => ColumnCheck(col, row);
    EveryTrue(columns, p);
    forall k | 0 <= k < |columns|
      ensures p(columns[k]) == Ok(true) <==>
              (columns[k].required ==> !IsNullish(row) && CellFilled(columns[k].kind, Get(row, columns[k].id).value))
    {
    }
  }

  /** A row throws exactly when it is null or undefined and some column is
      required. */
  lemma RowCheckThrows(columns: seq<TableColumn>, row: Value)
    ensures RowCheck(columns, row).Throws? <==>
            IsNullish(row) && exists k :: 0 <= k < |columns| && columns[k].required
  {
    var p := (col: TableColumn) => ColumnCheck(col, row);
    EveryThrows(columns, p);
    if IsNullish(row) && exists k :: 0 <= k < |columns| && columns[k].required {
      var k :| 0 <= k < |columns| && columns[k].required;
      var first := FirstRequired(columns, k);
      assert p(columns[first]).Throws?;
      assert forall j :: 0 <= j < first ==> p(columns[j]) == Ok(true);
    }
  }

  /** The position of the first required column, at most `k`. */
  function FirstRequired(columns: seq<TableColumn>, k: nat): (first: nat)
    requires k < |columns| && columns[k].required
    ensures first <= k && columns[first].required
    ensures forall j :: 0 <= j < first ==> !columns[j].required
  {
    if k == 0 || forall j :: 0 <= j < k ==> !columns[j].required then k
    else
      var j :| 0 <= j < k && columns[j].required;
      FirstRequired(columns, j)
  }

  /** `Object.values(typeof value === "object" && value ? value : {})`. */
  function ObjectValues(value: Value): (r: seq<Value>)
    ensures |r| == |Entries(value)|
  {
    var entries := Entries(value);
    seq(|entries|, k requires 0 <= k < |entries| => entries[k].1)
  }

  /** One property of a required object: a non-empty array, a non-blank
      string, or any other value but null and undefined. */
  predicate PropertyFilled(v: Value) {
    if v.Arr? then v.items != []
    else if v.Str? then Trim(v.s) != []
    else !IsNullish(v)
  }

  /** `Boolean(field.evidence?.required)`. */
  predicate EvidenceRequired(evidence: Option<EvidenceRule>) {
    evidence.Some? && evidence.value.required
  }

  /** `isFilled(field, value)`: whether a field's answer satisfies its
      "required" flag. */
  function IsFilled(field: Field, value: Value): Result<bool> {
    if !field.required then Ok(true)
    else
      match field.kind
      case Text => Ok(NonBlankString(value))
      case Tel => Ok(NonBlankString(value))
      case Date => Ok(NonBlankString(value))
      case Textarea => Ok(NonBlankString(value))
      case YesNo => Ok(NonBlankString(value))
      case TriState => Ok(NonBlankString(value))
      case Boolean => Ok(value == Bool(true))
      case MultiText =>
        Ok(value.Arr? && exists k :: 0 <= k < |value.items| && NonBlankString(value.items[k]))
      case AuditFinding(_, evidence) =>
        var v := if IsNullish(value) then Obj([]) else value;
        var findingOk := NonBlankString(Get(v, "finding").value);
        var evidenceOk := if EvidenceRequired(evidence) then NonBlankString(Get(v, "evidenceText").value) else true;
        Ok(findingOk && evidenceOk)
      case Object(_) =>
        var values := ObjectValues(value);
        Ok(exists k :: 0 <= k < |values| && PropertyFilled(values[k]))
      case Table(columns) =>
        var rows := if value.Arr? then value.items else [];
        if rows == [] then Ok(false)
        else Every(rows, RowTest(columns))
  }

  /** A field that is not required is always filled. */
  lemma OptionalFilled(field: Field, value: Value)
    requires !field.required
    ensures IsFilled(field, value) == Ok(true)
  {
  }

  /** The rows of a table throw exactly when some row is null or undefined,
      some column is required, and every row before it passes. */
  lemma RowsThrow(columns: seq<TableColumn>, rows: seq<Value>)
    ensures Every(rows, RowTest(columns)).Throws? <==>
            && (exists c :: 0 <= c < |columns| && columns[c].required)
            && exists k :: 0 <= k < |rows| && IsNullish(rows[k])
                 && forall j :: 0 <= j < k ==> RowCheck(columns, rows[j]) == Ok(true)
  {
    var p := RowTest(columns);
    EveryThrows(rows, p);
    forall k | 0 <= k < |rows|
      ensures p(rows[k]).Throws? <==>
              IsNullish(rows[k]) && exists c :: 0 <= c < |columns| && columns[c].required
    {
      RowCheckThrows(columns, rows[k]);
    }
  }

  /** Only a required table can throw: when some row is null or undefined,
      some column is required, and every row before it passes. */
  lemma IsFilledThrows(field: Field, value: Value)
    ensures IsFilled(field, value).Throws? <==>
            && field.required && field.kind.Table? && value.Arr?
            && (exists c :: 0 <= c < |field.kind.columns| && field.kind.columns[c].required)
            && exists k :: 0 <= k < |value.items| && IsNullish(value.items[k])
                 && forall j :: 0 <= j < k ==> RowCheck(field.kind.columns, value.items[j]) == Ok(true)
  {
    if field.required && field.kind.Table? && value.Arr? {
      RowsThrow(field.kind.columns, value.items);
    }
  }

  /** A required text, tel, date, textarea, yes/no or tri-state field is
      filled exactly when its answer is a string that is not all
      whitespace. */
  lemma RequiredTextFilled(field: Field, value: Value)
    requires field.required
    requires field.kind.Text? || field.kind.Tel? || field.kind.Date? || field.kind.Textarea?
          || field.kind.YesNo? || field.kind.TriState?
    ensures IsFilled(field, value) == Ok(true) <==> value.Str? && !AllWs(value.s)
  {
    NonBlankStringMeans(value);
    assert IsFilled(field, value) == Ok(NonBlankString(value));
  }

  /** A required boolean is filled exactly when its answer is `true`. */
  lemma RequiredBooleanFilled(field: Field, value: Value)
    requires field.required && field.kind.Boolean?
    ensures IsFilled(field, value) == Ok(true) <==> value == Bool(true)
  {
  }

  /** A required multi-text field needs one non-blank string entry. */
  lemma RequiredMultiTextFilled(field: Field, value: Value)
    requires field.required && field.kind.MultiText?
    ensures IsFilled(field, value) == Ok(true) <==>
              value.Arr? && exists k :: 0 <= k < |value.items| && value.items[k].Str? && !AllWs(value.items[k].s)
  {
    assert IsFilled(field, value)
        == Ok(value.Arr? && exists k :: 0 <= k < |value.items| && NonBlankString(value.items[k]));
    if value.Arr? {
      forall k | 0 <= k < |value.items|
        ensures NonBlankString(value.items[k]) <==> value.items[k].Str? && !AllWs(value.items[k].s)
      {
        NonBlankStringMeans(value.items[k]);
      }
    }
  }

  /** A required object needs one filled property among the answer's own
      values. */
  lemma RequiredObjectFilled(field: Field, value: Value)
    requires field.required && field.kind.Object?
    ensures IsFilled(field, value) == Ok(true) <==>
              exists k :: 0 <= k < |Entries(value)| && PropertyFilled(Entries(value)[k].1)
  {
    var values := ObjectValues(value);
    assert IsFilled(field, value) == Ok(exists k :: 0 <= k < |values| && PropertyFilled(values[k]));
    assert forall k :: 0 <= k < |values| ==> values[k] == Entries(value)[k].1;
  }

  /** A required audit finding needs a non-blank finding, and a non-blank
      evidence text exactly when its evidence is required; a null or
      undefined answer has neither. */
  lemma RequiredAuditFindingFilled(field: Field, value: Value)
    requires field.required && field.kind.AuditFinding?
    ensures IsNullish(value) ==> IsFilled(field, value) == Ok(false)
    ensures value.Obj? ==>
              (IsFilled(field, value) == Ok(true) <==>
               && NonBlankString(Lookup(value.entries, "finding"))
               && (EvidenceRequired(field.kind.evidence) ==> NonBlankString(Lookup(value.entries, "evidenceText"))))
    ensures !value.Obj? ==> IsFilled(field, value) == Ok(false)
  {
  }

  /** The rows of a table pass exactly when every row satisfies every
      required column. */
  lemma RowsPass(columns: seq<TableColumn>, rows: seq<Value>)
    ensures Every(rows, RowTest(columns)) == Ok(true) <==>
            forall k, c :: 0 <= k < |rows| && 0 <= c < |columns| && columns[c].required ==>
              !IsNullish(rows[k]) && CellFilled(columns[c].kind, Get(rows[k], columns[c].id).value)
  {
    EveryTrue(rows, RowTest(columns));
    forall k | 0 <= k < |rows| {
      RowCheckPasses(columns, rows[k]);
    }
  }

  /** A required table is filled exactly when it has a row and every row
      satisfies every required column. */
  lemma RequiredTableFilled(field: Field, value: Value)
    requires field.required && field.kind.Table?
    ensures IsFilled(field, value) == Ok(true) <==>
            && value.Arr? && value.items != []
            && forall k, c :: 0 <= k < |value.items| && 0 <= c < |field.kind.columns| && field.kind.columns[c].required ==>
                 !IsNullish(value.items[k])
                 && CellFilled(field.kind.columns[c].kind, Get(value.items[k], field.kind.columns[c].id).value)
  {
    if value.Arr? && value.items != [] {
      RowsPass(field.kind.columns, value.items);
    }
  }

  /** `isSectionValid`: every field of the section is filled. */
  function IsSectionValid(section: FormSection, answers: FormAnswers): Result<bool> {
    Every(section.fields, (f: Field) => IsFilled(f, AnswerOf(answers, f.id)))
  }

  /** `isFormValid`: every section is valid. */
  function IsFormValid(sections: seq<FormSection>, answers: FormAnswers): Result<bool> {
    Every(sections, (s: FormSection) => IsSectionValid(s, answers))
  }

  /** A section is valid exactly when every one of its fields is filled. */
  lemma SectionValidMeans(section: FormSection, answers: FormAnswers)
    ensures IsSectionValid(section, answers) == Ok(true) <==>
            forall f :: f in section.fields ==> IsFilled(f, AnswerOf(answers, f.id)) == Ok(true)
  {
    EveryTrue(section.fields, (f: Field) => IsFilled(f, AnswerOf(answers, f.id)));
  }

  /** The form is valid exactly when every field of every section is
      filled. */
  lemma FormValidMeans(sections: seq<FormSection>, answers: FormAnswers)
    ensures IsFormValid(sections, answers) == Ok(true) <==>
            forall s, f :: s in sections && f in s.fields ==> IsFilled(f, AnswerOf(answers, f.id)) == Ok(true)
  {
    EveryTrue(sections, (s: FormSection) => IsSectionValid(s, answers));
    forall s | s in sections {
      SectionValidMeans(s, answers);
    }
  }

  /** The form is valid exactly when every field, in document order, is
      filled. */
  lemma FormValidAllFields(sections: seq<FormSection>, answers: FormAnswers)
    ensures IsFormValid(sections, answers) == Ok(true) <==>
            forall f :: f in AllFields(sections) ==> IsFilled(f, AnswerOf(answers, f.id)) == Ok(true)
  {
    FormValidMeans(sections, answers);
    AllFieldsMembers(sections);
  }

  /** `sections.findIndex((s) => s.id === id)`: -1 when no section has
      that id. */
  function FindIndex(sections: seq<FormSection>, id: string): (r: int)
    ensures -1 <= r < |sections|
    ensures r == -1 <==> forall k :: 0 <= k < |sections| ==> sections[k].id != id
    ensures r >= 0 ==> sections[r].id == id && forall k :: 0 <= k < r ==> sections[k].id != id
    decreases |sections|
  {
    if sections == [] then -1
    else if sections[0].id == id then 0
    else
      var r := FindIndex(sections[1..], id);
      assert forall k :: 1 <= k < |sections| ==> sections[1..][k - 1] == sections[k];
      if r == -1 then -1 else r + 1
  }

  /** `sections.find((s) => s.id === id) ?? sections[0]`. */
  function ActiveSection(sections: seq<FormSection>, id: string): (r: Option<FormSection>)
    ensures r == None <==> sections == []
    ensures FindIndex(sections, id) >= 0 ==> r == Some(sections[FindIndex(sections, id)])
    ensures FindIndex(sections, id) == -1 && sections != [] ==> r == Some(sections[0])
  {
    var i := FindIndex(sections, id);
    if i >= 0 then Some(sections[i])
    else if sections != [] then Some(sections[0])
    else None
  }

  /** What the wizard derives from the active section id on every render. */
  datatype Navigation = Navigation(
    prev: Option<FormSection>, next: Option<FormSection>,
    isLastSection: bool, currentSectionValid: bool, formValid: bool,
    canGoPrev: bool, canGoNext: bool, canGenerate: bool)

  /** The flags for the active section `activeId`; validating a field can
      throw, and then the render throws. */
  function Navigate(sections: seq<FormSection>, activeId: string, answers: FormAnswers, busy: bool): Result<Navigation> {
    var idx := FindIndex(sections, activeId);
    var prev := if idx > 0 then Some(sections[idx - 1]) else None;
    var next := if idx >= 0 && idx < |sections| - 1 then Some(sections[idx + 1]) else None;
    var isLast := sections != [] && activeId == sections[|sections| - 1].id;
    var current := match ActiveSection(sections, activeId)
                   case Some(s) => IsSectionValid(s, answers)
                   case None => Ok(true);
    match current
    case Throws(e) => Throws(e)
    case Ok(currentValid) =>
      match IsFormValid(sections, answers)
      case Throws(e) => Throws(e)
      case Ok(formValid) =>
        Ok(Navigation(prev, next, isLast, currentValid, formValid,
                      prev.Some?, next.Some? && currentValid, isLast && formValid && !busy))
  }

  /** "Previous" is enabled exactly after the first section, and leads to
      the one before; "Next" exactly before the last section, when the
      current one is valid, and leads to the one after. */
  lemma NavigateSteps(sections: seq<FormSection>, activeId: string, answers: FormAnswers, busy: bool)
    requires Navigate(sections, activeId, answers, busy).Ok?
    ensures var n := Navigate(sections, activeId, answers, busy).value;
            var idx := FindIndex(sections, activeId);
            && (n.canGoPrev <==> idx > 0)
            && (n.canGoPrev ==> n.prev.value == sections[idx - 1])
            && (n.canGoNext <==> 0 <= idx < |sections| - 1 && n.currentSectionValid)
            && (n.prev.Some? <==> idx > 0)
            && (n.next.Some? <==> 0 <= idx < |sections| - 1)
            && (n.next.Some? ==> n.next.value == sections[idx + 1])
  {
  }

  /** "Generate Report" is enabled only on the last section, with no
      generation running, and only when every field of the form is filled. */
  lemma NavigateGenerate(sections: seq<FormSection>, activeId: string, answers: FormAnswers, busy: bool)
    requires Navigate(sections, activeId, answers, busy).Ok?
    ensures var n := Navigate(sections, activeId, answers, busy).value;
            n.canGenerate <==>
              && sections != [] && activeId == sections[|sections| - 1].id && !busy
              && forall f :: f in AllFields(sections) ==> IsFilled(f, AnswerOf(answers, f.id)) == Ok(true)
  {
    FormValidAllFields(sections, answers);
  }

  /** With distinct section ids, the section "Next" leads to has "Previous"
      leading back (when validating it does not throw). */
  lemma NextThenPrev(sections: seq<FormSection>, activeId: string, answers: FormAnswers, busy: bool)
    requires forall i, j :: 0 <= i < j < |sections| ==> sections[i].id != sections[j].id
    requires Navigate(sections, activeId, answers, busy).Ok?
    requires Navigate(sections, activeId, answers, busy).value.next.Some?
    ensures var there := Navigate(sections, activeId, answers, busy).value.next.value.id;
            Navigate(sections, there, answers, busy).Ok? ==>
            && Navigate(sections, there, answers, busy).value.prev.Some?
            && Navigate(sections, there, answers, busy).value.prev.value.id == activeId
  {
    var idx := FindIndex(sections, activeId);
    var there := sections[idx + 1].id;
    assert FindIndex(sections, there) == idx + 1;
  }
}
