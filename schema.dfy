/** The form definition: fields of a closed set of kinds, grouped into
    ordered sections, and the answer map keyed by field id. */
module Schema {
  import opened JsValues

  datatype AuditFindingOption = Conforms | MinorNc | MajorNc | Ofi

  /** The options a yes/no and a tri-state field offer, fixed by their kind. */
  const YesNoOptions: seq<string> := ["Yes", "NO"]
  const TriStateOptions: seq<string> := ["Yes", "NO", "NA"]

  /** The "required" flag of `evidence`, absent meaning false. */
  datatype EvidenceRule = EvidenceRule(required: bool)

  /** A table column: a text, date or multi-text cell. */
  datatype ColumnKind = TextColumn | DateColumn | MultiTextColumn
  datatype TableColumn = TableColumn(id: string, caption: string, required: bool, kind: ColumnKind)

  /** A property of an object field: text, textarea or multi-text. */
  datatype PropertyKind = TextProperty | TextareaProperty | MultiTextProperty
  datatype ObjectProperty = ObjectProperty(id: string, caption: string, required: bool, kind: PropertyKind)

  /** The eleven kinds of field. */
  datatype FieldKind =
    | Text
    | Tel
    | Date
    | Textarea
    | YesNo
    | TriState
    | Boolean
    | MultiText
    | AuditFinding(findingOptions: seq<AuditFindingOption>, evidence: Option<EvidenceRule>)
    | Table(columns: seq<TableColumn>)
    | Object(properties: seq<(string, ObjectProperty)>)

  /** Every field has an id, a label (`caption`) and a "required" flag (absent meaning
      false). */
  datatype Field = Field(id: string, caption: string, required: bool, kind: FieldKind)

  datatype FormSection = FormSection(id: string, title: string, fields: seq<Field>)

  datatype FormSource = FormSource(name: string, sourceType: string, evidence: string)

  datatype FormSchema = FormSchema(
    id: string, title: string, source: FormSource, complexityLevel: int,
    sections: seq<FormSection>)

  /** Field id to answer; a missing id reads as undefined. */
  type FormAnswers = map<string, Value>

  function AnswerOf(answers: FormAnswers, id: string): Value {
    if id in answers then answers[id] else Undefined
  }

  /** The fields of all sections, in document order. */
  function AllFields(sections: seq<FormSection>): seq<Field> {
    if sections == [] then []
    else AllFields(sections[..|sections| - 1]) + sections[|sections| - 1].fields
  }

  /** A field is listed exactly when some section holds it. */
  lemma {:induction false} AllFieldsMembers(sections: seq<FormSection>)
    ensures forall s, f :: s in sections && f in s.fields ==> f in AllFields(sections)
    ensures forall f :: f in AllFields(sections) ==> exists s :: s in sections && f in s.fields
  {
    if sections != [] {
      var n := |sections| - 1;
      AllFieldsMembers(sections[..n]);
      assert sections == sections[..n] + [sections[n]];
    }
  }
}
