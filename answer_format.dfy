/** The answer formatter of the report: the display text of one answer,
    chosen by the kind of its field (`stringifyAnswer` and its helpers in
    src/lib/reports/pdf.ts). */
module AnswerFormat {
  import opened JsValues
  import opened Schema

  /** The placeholder printed for "no answer": an em dash. */
  const Dash: string := "\U{2014}"

  /** `s || "—"`. */
  function OrDash(s: string): (r: string)
    ensures r != []
    ensures s != [] ==> r == s
  {
    if s == [] then Dash else s
  }

  /** The text an array entry contributes to a list:
      `typeof v === "string" ? v.trim() : String(v)`. */
  function EntryText(v: Value): string {
    if v.Str? then Trim(v.s) else ToStr(v)
  }

  /** `.map((v) => typeof v === "string" ? v.trim() : String(v))`. */
  function EntryTexts(items: seq<Value>): (r: seq<string>)
    ensures |r| == |items|
    ensures forall i :: 0 <= i < |items| ==> r[i] == EntryText(items[i])
  {
    seq(|items|, i requires 0 <= i < |items| => EntryText(items[i]))
  }

  /** `.filter((s) => s.length > 0)`: the non-empty strings, order kept. */
  function NonEmpty(xs: seq<string>): (r: seq<string>)
    ensures |r| <= |xs|
    ensures forall k :: 0 <= k < |r| ==> r[k] != []
  {
    if xs == [] then []
    else (if xs[0] == [] then [] else [xs[0]]) + NonEmpty(xs[1..])
  }

  /** The filter keeps exactly the non-empty strings. */
  lemma {:induction false} NonEmptyMembers(xs: seq<string>, x: string)
    ensures x in NonEmpty(xs) <==> x in xs && x != []
  {
    if xs != [] {
      NonEmptyMembers(xs[1..], x);
      assert xs == [xs[0]] + xs[1..];
    }
  }

  /** Nothing is kept exactly when every string is empty. */
  lemma {:induction false} NonEmptyNone(xs: seq<string>)
    ensures NonEmpty(xs) == [] <==> forall i :: 0 <= i < |xs| ==> xs[i] == []
  {
    if xs != [] {
      NonEmptyNone(xs[1..]);
      assert forall i :: 1 <= i < |xs| ==> xs[i] == xs[1..][i - 1];
    }
  }

  /** A list with no empty string passes the filter whole. */
  lemma {:induction false} NonEmptyAll(xs: seq<string>)
    requires forall i :: 0 <= i < |xs| ==> xs[i] != []
    ensures NonEmpty(xs) == xs
  {
    if xs != [] {
      assert forall i :: 0 <= i < |xs[1..]| ==> xs[1..][i] == xs[i + 1];
      NonEmptyAll(xs[1..]);
    }
  }

  /** The filter commutes with concatenation, so relative order is kept. */
  lemma {:induction false} NonEmptyConcat(xs: seq<string>, ys: seq<string>)
    ensures NonEmpty(xs + ys) == NonEmpty(xs) + NonEmpty(ys)
  {
    if xs != [] {
      assert (xs + ys)[1..] == xs[1..] + ys;
      NonEmptyConcat(xs[1..], ys);
    } else {
      assert xs + ys == ys;
    }
  }

  /** The entries of a list, each trimmed (or converted), empty ones dropped,
      order kept. */
  function Survivors(items: seq<Value>): (r: seq<string>)
    ensures |r| <= |items|
    ensures forall k :: 0 <= k < |r| ==> r[k] != []
  {
    NonEmpty(EntryTexts(items))
  }

  /** Nothing survives exactly when every entry is empty once trimmed. */
  lemma SurvivorsEmpty(items: seq<Value>)
    ensures Survivors(items) == [] <==> forall i :: 0 <= i < |items| ==> EntryText(items[i]) == []
  {
    NonEmptyNone(EntryTexts(items));
  }

  /** Joining non-empty pieces gives a non-empty string, so the `|| "—"`
      after a join fires exactly when nothing survived. */
  lemma {:induction false} JoinNonEmpty(xs: seq<string>, sep: string)
    ensures xs != [] && (forall k :: 0 <= k < |xs| ==> xs[k] != []) ==> Join(xs, sep) != []
  {
    if |xs| > 1 {
      assert |Join(xs, sep)| >= |xs[0]|;
    }
  }

  /** A multi-text answer: the surviving entries joined with ", ", or the
      dash when the value is not an array or nothing survives. */
  function MultiTextText(v: Value): (r: string)
    ensures !v.Arr? ==> r == Dash
    ensures v.Arr? && Survivors(v.items) == [] ==> r == Dash
    ensures v.Arr? && Survivors(v.items) != [] ==> r == Join(Survivors(v.items), ", ")
  {
    if v.Arr? then
      var survivors := Survivors(v.items);
      JoinNonEmpty(survivors, ", ");
      OrDash(Join(survivors, ", "))
    else Dash
  }

  /** `formatPrimitive`: a scalar answer as text. */
  function FormatPrimitive(v: Value): (r: string)
    ensures IsNullish(v) ==> r == Dash
    ensures v.Str? ==> r == OrDash(Trim(v.s))
    ensures v.Num? ==> r == if v.n.IsFinite() then NumberToString(v.n) else Dash
    ensures v.Bool? ==> r == if v.b then "Yes" else "No"
    ensures v.Arr? || v.Obj? ==> r == ToStr(v)
  {
    match v
    case Null => Dash
    case Undefined => Dash
    case Str(s) => OrDash(Trim(s))
    case Num(n) => if n.IsFinite() then NumberToString(n) else Dash
    case Bool(b) => if b then "Yes" else "No"
    case _ => ToStr(v)
  }

  predicate IsLowerAscii(c: char) { 'a' <= c <= 'z' }
  predicate IsUpperAscii(c: char) { 'A' <= c <= 'Z' }

  /** `toUpperCase` on one character, for the ASCII letters. */
  function UpperAscii(c: char): (u: char)
    ensures !IsLowerAscii(u)
    ensures !IsLowerAscii(c) ==> u == c
  {
    if IsLowerAscii(c) then (c as int - 'a' as int + 'A' as int) as char else c
  }

  /** `key.replace(/([a-z])([A-Z])/g, "$1 $2")`: a space between every
      lower-case letter and the upper-case letter after it.  Two matches
      can never overlap, so one pass over adjacent pairs is the global
      replacement. */
  function InsertSpaces(s: string): (r: string)
    ensures |r| >= |s|
    ensures s != [] ==> r != [] && r[0] == s[0]
  {
    if |s| < 2 then s
    else if IsLowerAscii(s[0]) && IsUpperAscii(s[1]) then [s[0], ' '] + InsertSpaces(s[1..])
    else [s[0]] + InsertSpaces(s[1..])
  }

  /** `toSentenceCase`: spaces at the camel-case boundaries, then the first
      character upper-cased; nothing else changes. */
  function ToSentenceCase(key: string): (r: string)
    ensures |r| >= |key|
  {
    var spaced := InsertSpaces(key);
    if spaced == [] then [] else [UpperAscii(spaced[0])] + spaced[1..]
  }

  predicate HasCamelBoundary(s: string) {
    exists i :: 0 <= i < |s| - 1 && IsLowerAscii(s[i]) && IsUpperAscii(s[i + 1])
  }

  function WithoutSpaces(s: string): (r: string) {
    if s == [] then [] else (if s[0] == ' ' then [] else [s[0]]) + WithoutSpaces(s[1..])
  }

  /** After the replacement no lower-case letter is followed by an
      upper-case one. */
  lemma {:induction false} InsertSpacesSplitsAll(s: string)
    ensures !HasCamelBoundary(InsertSpaces(s))
  {
    if |s| >= 2 {
      InsertSpacesSplitsAll(s[1..]);
      var rest := InsertSpaces(s[1..]);
      if IsLowerAscii(s[0]) && IsUpperAscii(s[1]) {
        assert InsertSpaces(s) == [s[0], ' '] + rest;
        assert forall i :: 2 <= i < |InsertSpaces(s)| ==> InsertSpaces(s)[i] == rest[i - 2];
      } else {
        assert InsertSpaces(s) == [s[0]] + rest;
        assert forall i :: 1 <= i < |InsertSpaces(s)| ==> InsertSpaces(s)[i] == rest[i - 1];
        assert rest[0] == s[1];
      }
    }
  }

  lemma InsertSpacesCons(c: char, t: string)
    requires t != []
    ensures InsertSpaces([c] + t)
         == (if IsLowerAscii(c) && IsUpperAscii(t[0]) then [c, ' '] else [c]) + InsertSpaces(t)
  {
    assert ([c] + t)[1..] == t;
  }

  lemma WithoutSpacesCons(c: char, t: string)
    ensures WithoutSpaces([c] + t) == (if c == ' ' then [] else [c]) + WithoutSpaces(t)
  {
    assert ([c] + t)[1..] == t;
  }

  /** The replacement only inserts spaces. */
  lemma {:induction false} InsertSpacesOnlyAddsSpaces(s: string)
    ensures WithoutSpaces(InsertSpaces(s)) == WithoutSpaces(s)
  {
    if |s| >= 2 {
      var t := s[1..];
      assert s == [s[0]] + t;
      InsertSpacesOnlyAddsSpaces(t);
      InsertSpacesCons(s[0], t);
      WithoutSpacesCons(s[0], t);
      var rest := InsertSpaces(t);
      if IsLowerAscii(s[0]) && IsUpperAscii(t[0]) {
        assert [s[0], ' '] + rest == [s[0]] + ([' '] + rest);
        WithoutSpacesCons(s[0], [' '] + rest);
        WithoutSpacesCons(' ', rest);
      } else {
        WithoutSpacesCons(s[0], rest);
      }
    }
  }

  /** A key that is already split is only capitalised. */
  lemma {:induction false} InsertSpacesFixed(s: string)
    requires !HasCamelBoundary(s)
    ensures InsertSpaces(s) == s
  {
    if |s| >= 2 {
      assert !HasCamelBoundary(s[1..]);
      InsertSpacesFixed(s[1..]);
      assert !(IsLowerAscii(s[0]) && IsUpperAscii(s[1]));
      assert [s[0]] + s[1..] == s;
    }
  }

  /** The replacement is idempotent. */
  lemma InsertSpacesIdempotent(s: string)
    ensures InsertSpaces(InsertSpaces(s)) == InsertSpaces(s)
  {
    InsertSpacesSplitsAll(s);
    InsertSpacesFixed(InsertSpaces(s));
  }

  predicate AllLowerAscii(s: string) {
    forall i :: 0 <= i < |s| ==> IsLowerAscii(s[i])
  }

  /** A run of lower-case letters before an upper-case one gets exactly
      one space, at the boundary. */
  lemma {:induction false} InsertSpacesAtBoundary(p: string, t: string)
    requires p != [] && AllLowerAscii(p)
    requires t != [] && IsUpperAscii(t[0])
    ensures InsertSpaces(p + t) == p + " " + InsertSpaces(t)
    decreases |p|
  {
    var q := p[1..] + t;
    assert p + t == [p[0]] + q;
    InsertSpacesCons(p[0], q);
    if |p| == 1 {
      assert q == t;
      assert InsertSpaces(p + t) == [p[0], ' '] + InsertSpaces(t);
      assert p + " " == [p[0], ' '];
    } else {
      assert q[0] == p[1];
      assert !IsUpperAscii(q[0]);
      InsertSpacesAtBoundary(p[1..], t);
      assert InsertSpaces(p + t) == [p[0]] + (p[1..] + " " + InsertSpaces(t));
      assert p == [p[0]] + p[1..];
    }
  }

  /** A two-word camel-case key, such as `firstName`, is shown as its two
      words, the first capitalised ("First Name"). */
  lemma SentenceCaseTwoWords(first: string, second: string)
    requires first != [] && AllLowerAscii(first)
    requires second != [] && IsUpperAscii(second[0]) && AllLowerAscii(second[1..])
    ensures ToSentenceCase(first + second) == [UpperAscii(first[0])] + first[1..] + " " + second
  {
    InsertSpacesAtBoundary(first, second);
    assert !HasCamelBoundary(second) by {
      forall i | 1 <= i < |second| ensures !IsUpperAscii(second[i]) {
        assert second[i] == second[1..][i - 1];
      }
    }
    InsertSpacesFixed(second);
    var spaced := first + " " + second;
    assert InsertSpaces(first + second) == spaced;
    assert spaced[0] == first[0];
    assert spaced[1..] == first[1..] + " " + second;
  }

  /** "heading: text". */
  predicate StartsWith(s: string, prefix: string) {
    |s| >= |prefix| && s[..|prefix|] == prefix
  }

  function Labelled(heading: string, text: string): (r: string)
    ensures StartsWith(r, heading + ": ")
  {
    heading + ": " + text
  }

  /** One line of an object answer, or "" when the property is empty. */
  function PropertyLine(key: string, v: Value): (r: string)
    ensures r != [] ==> StartsWith(r, ToSentenceCase(key) + ": ")
    ensures IsNullish(v) ==> r == []
    ensures v.Str? ==> (r == [] <==> Trim(v.s) == [])
    ensures v.Arr? ==> (r == [] <==> Survivors(v.items) == [])
    ensures v.Num? || v.Bool? || v.Obj? ==> r != []
  {
    var heading := ToSentenceCase(key);
    match v
    case Arr(items) =>
      var survivors := Survivors(items);
      if survivors != [] then Labelled(heading, Join(survivors, ", ")) else ""
    case Str(s) => if Trim(s) != [] then Labelled(heading, Trim(s)) else ""
    case Num(Int(i)) => Labelled(heading, IntToString(i))
    case Bool(b) => Labelled(heading, if b then "Yes" else "No")
    case Null => ""
    case Undefined => ""
    case _ => Labelled(heading, ToStr(v))
  }

  /** The non-empty lines of an object's own entries, in entry order. */
  function ObjectLines(entries: seq<(string, Value)>): (r: seq<string>)
    ensures |r| <= |entries|
    ensures forall k :: 0 <= k < |r| ==> r[k] != []
  {
    if entries == [] then []
    else
      var line := PropertyLine(entries[0].0, entries[0].1);
      var rest := ObjectLines(entries[1..]);
      if line == [] then rest else [line] + rest
  }

  /** The line of every entry, empty ones included. */
  function PropertyLines(entries: seq<(string, Value)>): (r: seq<string>)
    ensures |r| == |entries|
    ensures forall i :: 0 <= i < |entries| ==> r[i] == PropertyLine(entries[i].0, entries[i].1)
  {
    if entries == [] then []
    else [PropertyLine(entries[0].0, entries[0].1)] + PropertyLines(entries[1..])
  }

  /** The object's lines are the entries' lines with the empty ones
      filtered out, in entry order. */
  lemma {:induction false} ObjectLinesFilter(entries: seq<(string, Value)>)
    ensures ObjectLines(entries) == NonEmpty(PropertyLines(entries))
  {
    if entries != [] {
      ObjectLinesFilter(entries[1..]);
      var xs := PropertyLines(entries);
      assert xs[1..] == PropertyLines(entries[1..]);
    }
  }

  /** Every kept line is the line of some entry. */
  lemma ObjectLinesFrom(entries: seq<(string, Value)>)
    ensures forall k :: 0 <= k < |ObjectLines(entries)| ==> ObjectLines(entries)[k] in PropertyLines(entries)
  {
    ObjectLinesFilter(entries);
    forall k | 0 <= k < |ObjectLines(entries)| {
      NonEmptyMembers(PropertyLines(entries), ObjectLines(entries)[k]);
    }
  }

  /** No line is kept exactly when every entry's line is empty. */
  lemma ObjectLinesNone(entries: seq<(string, Value)>)
    ensures ObjectLines(entries) == [] <==>
              forall i :: 0 <= i < |entries| ==> PropertyLine(entries[i].0, entries[i].1) == []
  {
    ObjectLinesFilter(entries);
    NonEmptyNone(PropertyLines(entries));
  }

  /** An object answer: its lines joined with newlines, or the dash. */
  function ObjectText(v: Value): (r: string)
    ensures ObjectLines(Entries(v)) == [] ==> r == Dash
    ensures ObjectLines(Entries(v)) != [] ==> r == Join(ObjectLines(Entries(v)), "\n")
  {
    var lines := ObjectLines(Entries(v));
    if lines != [] then Join(lines, "\n") else Dash
  }

  /** `(v.key ?? "").trim()`: throws when the property is present but is not
      a string. */
  function PropertyText(v: Value, key: string): (r: Result<string>)
    requires !IsNullish(v)
    ensures r.Throws? <==> !(IsNullish(Get(v, key).value) || Get(v, key).value.Str?)
  {
    var p := Get(v, key).value;
    if IsNullish(p) then Ok("")
    else if p.Str? then Ok(Trim(p.s))
    else Throws(TypeError)
  }

  /** How an audit finding reads once its two parts are trimmed. */
  function AuditCombine(f: string, e: string): (r: string)
    ensures f == [] && e == [] ==> r == Dash
    ensures e != [] ==> r == OrDash(f) + " \U{2014} Evidence: " + e
    ensures f != [] && e == [] ==> r == f
  {
    if f == [] && e == [] then Dash
    else if e != [] then OrDash(f) + " \U{2014} Evidence: " + e
    else OrDash(f)
  }

  /** An audit finding: the trimmed finding and evidence, or the TypeError
      of trimming a part that is not a string. */
  function AuditText(v: Value): (r: Result<string>)
    requires !IsNullish(v)
  {
    match PropertyText(v, "finding")
    case Throws(e) => Throws(e)
    case Ok(f) =>
      match PropertyText(v, "evidenceText")
      case Throws(e) => Throws(e)
      case Ok(e) => Ok(AuditCombine(f, e))
  }

  /** The text of one table cell: a multi-text column joins its entries,
      any other column formats the cell as a scalar. */
  function CellText(col: TableColumn, cell: Value): (r: string)
    ensures col.kind.MultiTextColumn? ==> r == MultiTextText(cell)
    ensures !col.kind.MultiTextColumn? ==> r == FormatPrimitive(cell)
  {
    if col.kind.MultiTextColumn? then MultiTextText(cell) else FormatPrimitive(cell)
  }

  /** "label: text" for every column of one row, or the TypeError that
      reading a property of a null or undefined row raises. */
  function RowParts(columns: seq<TableColumn>, row: Value): (r: Result<seq<string>>)
    ensures r.Ok? ==> |r.value| == |columns|
    ensures r.Throws? <==> columns != [] && IsNullish(row)
  {
    if columns == [] then Ok([])
    else
      match Get(row, columns[0].id)
      case Throws(e) => Throws(e)
      case Ok(cell) =>
        match RowParts(columns[1..], row)
        case Throws(e) => Throws(e)
        case Ok(rest) => Ok([columns[0].caption + ": " + CellText(columns[0], cell)] + rest)
  }

  /** "Row n: ..." for every row from index `from` on. */
  function RowLines(columns: seq<TableColumn>, rows: seq<Value>, from: nat): (r: Result<seq<string>>)
    ensures r.Ok? ==> |r.value| == |rows|
    decreases rows
  {
    if rows == [] then Ok([])
    else
      match RowParts(columns, rows[0])
      case Throws(e) => Throws(e)
      case Ok(parts) =>
        match RowLines(columns, rows[1..], from + 1)
        case Throws(e) => Throws(e)
        case Ok(rest) => Ok(["Row " + NatToString(from + 1) + ": " + Join(parts, " | ")] + rest)
  }

  function TableText(columns: seq<TableColumn>, v: Value): (r: Result<string>) {
    var rows := if v.Arr? then v.items else [];
    if rows == [] then Ok(Dash)
    else
      match RowLines(columns, rows, 0)
      case Throws(e) => Throws(e)
      case Ok(lines) => Ok(Join(lines, "\n"))
  }

  predicate IsBlank(v: Value) {
    IsNullish(v) || v == Str("")
  }

  /** `stringifyAnswer`. */
  function StringifyAnswer(field: Field, value: Value): (r: Result<string>) {
    if IsBlank(value) then Ok(Dash)
    else
      match field.kind
      case Boolean => Ok(if value == Bool(true) then "Yes" else "No")
      case YesNo => Ok(FormatPrimitive(value))
      case TriState => Ok(FormatPrimitive(value))
      case MultiText => Ok(MultiTextText(value))
      case AuditFinding(_, _) => AuditText(value)
      case Table(columns) => TableText(columns, value)
      case Object(_) => Ok(ObjectText(value))
      case _ => Ok(FormatPrimitive(value))
  }

  /** Blank answers print the dash whatever the kind of the field. */
  lemma StringifyBlank(field: Field, value: Value)
    requires IsBlank(value)
    ensures StringifyAnswer(field, value) == Ok(Dash)
  {
  }

  /** A present boolean answer prints "Yes" only for `true`; a missing one
      prints the dash, not "No". */
  lemma StringifyBoolean(field: Field, value: Value)
    requires field.kind.Boolean?
    ensures StringifyAnswer(field, value)
         == Ok(if IsBlank(value) then Dash else if value == Bool(true) then "Yes" else "No")
  {
  }

  /** Only an audit finding whose `finding` or `evidenceText` is present but
      not a string, or a table with a null row, makes the formatter throw. */
  lemma StringifyThrows(field: Field, value: Value)
    ensures StringifyAnswer(field, value).Throws? <==>
              && !IsBlank(value)
              && (|| (field.kind.AuditFinding?
                      && (|| PropertyText(value, "finding").Throws?
                          || PropertyText(value, "evidenceText").Throws?))
                  || (field.kind.Table? && value.Arr? && field.kind.columns != []
                      && exists i :: 0 <= i < |value.items| && IsNullish(value.items[i])))
  {
    if field.kind.Table? && !IsBlank(value) && value.Arr? && value.items != [] {
      TableThrows(field.kind.columns, value.items, 0);
    }
  }

  lemma {:induction false} TableThrows(columns: seq<TableColumn>, rows: seq<Value>, from: nat)
    ensures RowLines(columns, rows, from).Throws? <==>
              columns != [] && exists i :: 0 <= i < |rows| && IsNullish(rows[i])
    decreases rows
  {
    if rows != [] {
      TableThrows(columns, rows[1..], from + 1);
      if columns != [] && !IsNullish(rows[0]) &&
         (exists i :: 0 <= i < |rows| && IsNullish(rows[i])) {
        var i :| 0 <= i < |rows| && IsNullish(rows[i]);
        assert rows[1..][i - 1] == rows[i];
      }
    }
  }

  /** An audit finding whose parts trim to `f` and `e` reads as
      `AuditCombine(f, e)`: the dash when both are blank, the evidence after
      the finding (or the dash), or the finding alone. */
  lemma StringifyAuditFinding(field: Field, value: Value, f: string, e: string)
    requires field.kind.AuditFinding? && !IsBlank(value)
    requires PropertyText(value, "finding") == Ok(f)
    requires PropertyText(value, "evidenceText") == Ok(e)
    ensures StringifyAnswer(field, value) == Ok(AuditCombine(f, e))
  {
    assert StringifyAnswer(field, value) == AuditText(value);
  }

  /** A multi-text answer prints its surviving entries joined with ", ". */
  lemma StringifyMultiText(field: Field, value: Value)
    requires field.kind.MultiText? && !IsBlank(value)
    ensures value.Arr? && Survivors(value.items) != [] ==>
              StringifyAnswer(field, value) == Ok(Join(Survivors(value.items), ", "))
    ensures !value.Arr? || Survivors(value.items) == [] ==> StringifyAnswer(field, value) == Ok(Dash)
  {
  }

  /** An object answer is formatted from its own entries: the declared
      properties of the field play no part. */
  lemma StringifyObjectIgnoresDeclaration(field: Field, other: seq<(string, ObjectProperty)>, value: Value)
    requires field.kind.Object?
    ensures StringifyAnswer(field, value) == StringifyAnswer(field.(kind := Object(other)), value)
    ensures !IsBlank(value) ==> StringifyAnswer(field, value) == Ok(ObjectText(value))
  {
  }

  /** The survivors of a list are those of its head, then those of the rest. */
  lemma SurvivorsConcat(a: seq<Value>, b: seq<Value>)
    ensures Survivors(a + b) == Survivors(a) + Survivors(b)
  {
    assert EntryTexts(a + b) == EntryTexts(a) + EntryTexts(b);
    NonEmptyConcat(EntryTexts(a), EntryTexts(b));
  }

  lemma ObjectLinesCons(entry: (string, Value), rest: seq<(string, Value)>)
    ensures ObjectLines([entry] + rest)
         == (if PropertyLine(entry.0, entry.1) == [] then [] else [PropertyLine(entry.0, entry.1)])
            + ObjectLines(rest)
  {
    assert ([entry] + rest)[1..] == rest;
  }
}
