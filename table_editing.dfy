/** The table editor (src/components/forms/fields/TableFieldView.tsx): the
    rows of a table answer, the "Add row" and "Remove" buttons, editing one
    cell, and the text a multi-text cell shows and parses back. */
module TableEditing {
  import opened JsValues
  import opened Schema
  import opened ListEdits
  import AnswerFormat

  /** `Array.isArray(value) ? value : []`: anything but an array has no
      rows. */
  function RowsOf(value: Value): (rows: seq<Value>)
    ensures !value.Arr? ==> rows == []
    ensures value.Arr? ==> rows == value.items
  {
    if value.Arr? then value.items else []
  }

  /** The keys of an object's entries. */
  function Keys(entries: seq<(string, Value)>): (r: set<string>)
    ensures forall k :: 0 <= k < |entries| ==> entries[k].0 in r
    ensures forall key :: key in r ==> exists k :: 0 <= k < |entries| && entries[k].0 == key
    decreases |entries|
  {
    if entries == [] then {}
    else
      var rest := Keys(entries[1..]);
      assert forall k :: 1 <= k < |entries| ==> entries[k] == entries[1..][k - 1];
      {entries[0].0} + rest
  }

  /** No key appears twice, as in any JavaScript object. */
  predicate DistinctKeys(entries: seq<(string, Value)>) {
    forall i, j :: 0 <= i < j < |entries| ==> entries[i].0 != entries[j].0
  }

  /** Distinct keys, one entry at a time. */
  lemma DistinctCons(e: (string, Value), rest: seq<(string, Value)>)
    ensures DistinctKeys([e] + rest) <==> e.0 !in Keys(rest) && DistinctKeys(rest)
  {
    var all := [e] + rest;
    assert forall k :: 1 <= k < |all| ==> all[k] == rest[k - 1];
    if DistinctKeys(all) {
      DistinctTail(all);
      assert all[1..] == rest;
    }
    if e.0 !in Keys(rest) && DistinctKeys(rest) {
      forall i, j | 0 <= i < j < |all| ensures all[i].0 != all[j].0 {
        if i > 0 {
          assert all[i].0 == rest[i - 1].0 && all[j].0 == rest[j - 1].0;
        } else {
          assert all[j].0 in Keys(rest);
        }
      }
    }
  }

  /** The head key of distinct entries is not among the others. */
  lemma DistinctTail(all: seq<(string, Value)>)
    requires all != [] && DistinctKeys(all)
    ensures all[0].0 !in Keys(all[1..]) && DistinctKeys(all[1..])
  {
    var rest := all[1..];
    assert forall i, j :: 0 <= i < j < |rest| ==> rest[i].0 == all[i + 1].0 && rest[j].0 == all[j + 1].0;
  }

  /** `obj[key] = v` on an object's entries: an existing key keeps its
      place and takes the new value, a new key goes last. */
  function Put(entries: seq<(string, Value)>, key: string, v: Value): (r: seq<(string, Value)>)
    decreases |entries|
  {
    if entries == [] then [(key, v)]
    else if entries[0].0 == key then [(key, v)] + entries[1..]
    else [entries[0]] + Put(entries[1..], key, v)
  }

  /** After `obj[key] = v`, `obj[key]` is `v` and every other property
      reads as before. */
  lemma {:induction false} PutLookup(entries: seq<(string, Value)>, key: string, v: Value)
    ensures Lookup(Put(entries, key, v), key) == v
    ensures forall other :: other != key ==> Lookup(Put(entries, key, v), other) == Lookup(entries, other)
    decreases |entries|
  {
    if entries != [] && entries[0].0 != key {
      PutLookup(entries[1..], key, v);
    }
  }

  /** `obj[key] = v` adds `key` to the keys and no other. */
  lemma {:induction false} PutKeys(entries: seq<(string, Value)>, key: string, v: Value)
    ensures Keys(Put(entries, key, v)) == Keys(entries) + {key}
    decreases |entries|
  {
    if entries != [] {
      var r := Put(entries, key, v);
      if entries[0].0 != key {
        PutKeys(entries[1..], key, v);
        assert r[1..] == Put(entries[1..], key, v);
      } else {
        assert r[1..] == entries[1..];
      }
    }
  }

  /** `obj[key] = v` doubles no key. */
  lemma {:induction false} PutDistinct(entries: seq<(string, Value)>, key: string, v: Value)
    requires DistinctKeys(entries)
    ensures DistinctKeys(Put(entries, key, v))
    decreases |entries|
  {
    if entries != [] {
      var tail := entries[1..];
      assert entries == [entries[0]] + tail;
      DistinctCons(entries[0], tail);
      if entries[0].0 != key {
        PutDistinct(tail, key, v);
        PutKeys(tail, key, v);
        DistinctCons(entries[0], Put(tail, key, v));
      } else {
        DistinctCons((key, v), tail);
      }
    }
  }

  /** A key that is not there yet goes last. */
  lemma {:induction false} PutNew(entries: seq<(string, Value)>, key: string, v: Value)
    requires key !in Keys(entries)
    ensures Put(entries, key, v) == entries + [(key, v)]
    decreases |entries|
  {
    if entries != [] {
      assert Keys(entries[1..]) <= Keys(entries);
      PutNew(entries[1..], key, v);
      assert entries == [entries[0]] + entries[1..];
    }
  }

  /** The value a fresh row holds for a column: `[]` for multi-text, `""`
      otherwise. */
  function DefaultCell(col: TableColumn): Value {
    if col.kind == MultiTextColumn then Arr([]) else Str("")
  }

  /** The entries of the row `addRow` builds after its loop has seen
      `columns`. */
  function FreshEntries(columns: seq<TableColumn>): seq<(string, Value)> {
    if columns == [] then []
    else
      var n := |columns| - 1;
      Put(FreshEntries(columns[..n]), columns[n].id, DefaultCell(columns[n]))
  }

  /** The loop of `addRow`: `row[c.id] = c.type === "multiText" ? [] : ""`
      for every column in order. */
  method NewRow(columns: seq<TableColumn>) returns (row: Value)
    ensures row == Obj(FreshEntries(columns))
  {
    var entries: seq<(string, Value)> := [];
    for i := 0 to |columns|
      invariant entries == FreshEntries(columns[..i])
    {
      assert columns[..i + 1][..i] == columns[..i];
      entries := Put(entries, columns[i].id, DefaultCell(columns[i]));
    }
    assert columns[..|columns|] == columns;
    row := Obj(entries);
  }

  /** The ids of `columns`. */
  function Ids(columns: seq<TableColumn>): (r: set<string>)
    ensures forall k :: 0 <= k < |columns| ==> columns[k].id in r
    ensures forall id :: id in r ==> exists k :: 0 <= k < |columns| && columns[k].id == id
  {
    if columns == [] then {}
    else
      var n := |columns| - 1;
      var before := Ids(columns[..n]);
      assert forall k :: 0 <= k < n ==> columns[k] == columns[..n][k];
      before + {columns[n].id}
  }

  predicate DistinctIds(columns: seq<TableColumn>) {
    forall i, j :: 0 <= i < j < |columns| ==> columns[i].id != columns[j].id
  }

  /** A fresh row has exactly the column ids as keys, each once. */
  lemma {:induction false} FreshEntriesKeys(columns: seq<TableColumn>)
    ensures Keys(FreshEntries(columns)) == Ids(columns)
    ensures DistinctKeys(FreshEntries(columns))
  {
    if columns != [] {
      var n := |columns| - 1;
      var before := FreshEntries(columns[..n]);
      FreshEntriesKeys(columns[..n]);
      PutKeys(before, columns[n].id, DefaultCell(columns[n]));
      PutDistinct(before, columns[n].id, DefaultCell(columns[n]));
    }
  }

  /** With distinct column ids a fresh row lists them in column order,
      each with its default value. */
  lemma {:induction false} FreshEntriesInOrder(columns: seq<TableColumn>)
    requires DistinctIds(columns)
    ensures FreshEntries(columns) == Defaults(columns)
  {
    if columns != [] {
      var n := |columns| - 1;
      var before := FreshEntries(columns[..n]);
      assert DistinctIds(columns[..n]);
      FreshEntriesInOrder(columns[..n]);
      FreshEntriesKeys(columns[..n]);
      assert columns[n].id !in Ids(columns[..n]);
      PutNew(before, columns[n].id, DefaultCell(columns[n]));
      DefaultsSnoc(columns);
    }
  }

  /** Every column with its default value, in column order. */
  function Defaults(columns: seq<TableColumn>): (r: seq<(string, Value)>)
    ensures |r| == |columns|
    ensures forall k :: 0 <= k < |columns| ==> r[k] == (columns[k].id, DefaultCell(columns[k]))
  {
    seq(|columns|, k requires 0 <= k < |columns| => (columns[k].id, DefaultCell(columns[k])))
  }

  lemma DefaultsSnoc(columns: seq<TableColumn>)
    requires columns != []
    ensures var n := |columns| - 1;
            Defaults(columns) == Defaults(columns[..n]) + [(columns[n].id, DefaultCell(columns[n]))]
  {
    var n := |columns| - 1;
    assert forall k :: 0 <= k < n ==> columns[..n][k] == columns[k];
  }

  /** With distinct column ids, every cell of a fresh row holds its
      column's default. */
  lemma FreshRowCells(columns: seq<TableColumn>)
    requires DistinctIds(columns)
    ensures forall k :: 0 <= k < |columns| ==> Lookup(FreshEntries(columns), columns[k].id) == DefaultCell(columns[k])
  {
    FreshEntriesKeys(columns);
    FreshEntriesInOrder(columns);
    var entries := FreshEntries(columns);
    forall k | 0 <= k < |columns|
      ensures Lookup(entries, columns[k].id) == DefaultCell(columns[k])
    {
      LookupDistinct(entries, k);
    }
  }

  /** In entries with distinct keys, looking up the key of entry `k` finds
      entry `k`. */
  lemma {:induction false} LookupDistinct(entries: seq<(string, Value)>, k: nat)
    requires k < |entries| && DistinctKeys(entries)
    ensures Lookup(entries, entries[k].0) == entries[k].1
    decreases k
  {
    if k > 0 {
      LookupDistinct(entries[1..], k - 1);
    }
  }

  /** `addRow`: a fresh row after the current ones. */
  method AddRow(value: Value, columns: seq<TableColumn>) returns (rows: seq<Value>)
    ensures |rows| == |RowsOf(value)| + 1
    ensures rows[..|RowsOf(value)|] == RowsOf(value)
    ensures rows[|RowsOf(value)|] == Obj(FreshEntries(columns))
  {
    var row := NewRow(columns);
    rows := RowsOf(value) + [row];
  }

  /** `removeRow(idx)`: `rows.filter((_, i) => i !== idx)`. */
  function RemoveRow(value: Value, idx: int): (rows: seq<Value>)
    ensures 0 <= idx < |RowsOf(value)| ==> rows == RowsOf(value)[..idx] + RowsOf(value)[idx + 1..]
    ensures !(0 <= idx < |RowsOf(value)|) ==> rows == RowsOf(value)
  {
    WithoutIndexSlices(RowsOf(value), idx);
    WithoutIndex(RowsOf(value), idx)
  }

  /** `{ ...row }`: the own enumerable properties of `row`; an array or a
      string spreads its indices, every other value spreads nothing. */
  function SpreadEntries(row: Value): seq<(string, Value)> {
    match row
    case Obj(entries) => entries
    case Arr(items) => IndexEntries(items)
    case Str(s) => IndexEntries(seq(|s|, i requires 0 <= i < |s| => Str([s[i]])))
    case _ => []
  }

  /** `{ ...row, [colId]: v }`. */
  function WithCell(row: Value, colId: string, v: Value): Value {
    Obj(Put(SpreadEntries(row), colId, v))
  }

  /** `setCell(r, colId, v)`: row `r` gets the new cell, the others are
      kept. */
  function SetCell(value: Value, r: int, colId: string, v: Value): (rows: seq<Value>) {
    MapAt(RowsOf(value), r, row => WithCell(row, colId, v))
  }

  /** Editing a cell keeps the row count and every other row; in row `r`
      only the key `colId` changes. */
  lemma SetCellMeans(value: Value, r: int, colId: string, v: Value)
    ensures var rows := SetCell(value, r, colId, v);
            && |rows| == |RowsOf(value)|
            && (forall k :: 0 <= k < |rows| && k != r ==> rows[k] == RowsOf(value)[k])
            && (0 <= r < |rows| ==>
                  && rows[r].Obj?
                  && Lookup(rows[r].entries, colId) == v
                  && Keys(rows[r].entries) == Keys(SpreadEntries(RowsOf(value)[r])) + {colId}
                  && forall key :: key != colId ==>
                       Lookup(rows[r].entries, key) == Lookup(SpreadEntries(RowsOf(value)[r]), key))
  {
    if 0 <= r < |RowsOf(value)| {
      PutLookup(SpreadEntries(RowsOf(value)[r]), colId, v);
      PutKeys(SpreadEntries(RowsOf(value)[r]), colId, v);
    }
  }

  /** An object row keeps every other property, and its own order. */
  lemma SetCellOfObject(value: Value, r: int, colId: string, v: Value)
    requires 0 <= r < |RowsOf(value)| && RowsOf(value)[r].Obj?
    ensures SetCell(value, r, colId, v)[r] == Obj(Put(RowsOf(value)[r].entries, colId, v))
  {
  }

  /** The text a multi-text cell shows: `cell.join(", ")` for an array
      (null and undefined entries shown empty), else "". */
  function MultiTextCellText(cell: Value): string {
    if cell.Arr? then
      Join(seq(|cell.items|, i requires 0 <= i < |cell.items| =>
                 if IsNullish(cell.items[i]) then "" else ToStr(cell.items[i])), ", ")
    else ""
  }

  /** The text a text or date cell shows: the string, else "". */
  function TextCellText(cell: Value): string {
    if cell.Str? then cell.s else ""
  }

  /** `text.split(",").map((s) => s.trim()).filter(Boolean)`. */
  function ParseList(text: string): (r: seq<string>) {
    var pieces := Split(text, ',');
    AnswerFormat.NonEmpty(seq(|pieces|, i requires 0 <= i < |pieces| => Trim(pieces[i])))
  }

  /** An entry of a list as typed: not empty, no surrounding whitespace, no
      comma. */
  predicate CleanEntry(s: string) {
    s != [] && IsTrimmed(s) && ',' !in s
  }

  /** The trim of a piece is a part of it, so holds no comma either. */
  lemma TrimKeepsOut(s: string, c: char)
    requires c !in s
    ensures c !in Trim(s)
  {
    TrimShape(s);
    var k :| PaddedAt(s, Trim(s), k);
  }

  /** Parsing yields clean entries only. */
  lemma ParseListClean(text: string)
    ensures forall k :: 0 <= k < |ParseList(text)| ==> CleanEntry(ParseList(text)[k])
  {
    var pieces := Split(text, ',');
    var trimmed := seq(|pieces|, i requires 0 <= i < |pieces| => Trim(pieces[i]));
    forall k | 0 <= k < |ParseList(text)|
      ensures CleanEntry(ParseList(text)[k])
    {
      var x := ParseList(text)[k];
      AnswerFormat.NonEmptyMembers(trimmed, x);
      var i :| 0 <= i < |trimmed| && trimmed[i] == x;
      TrimKeepsOut(pieces[i], ',');
    }
  }

  /** The pieces `xs.join(", ")` splits into at the commas: a space
      before every entry but the first. */
  function Spaced(xs: seq<string>): (r: seq<string>)
    ensures |r| == |xs|
  {
    seq(|xs|, i requires 0 <= i < |xs| => if i == 0 then xs[0] else " " + xs[i])
  }

  /** A prefix of the first piece is a prefix of the joined text. */
  lemma JoinHead(p: string, a: string, rest: seq<string>, sep: string)
    ensures Join([p + a] + rest, sep) == p + Join([a] + rest, sep)
  {
    if rest != [] {
      assert ([p + a] + rest)[1..] == rest;
      assert ([a] + rest)[1..] == rest;
    }
  }

  /** `xs.join(", ")` is the spaced pieces joined with ",". */
  lemma {:induction false} JoinSpaced(xs: seq<string>)
    ensures Join(xs, ", ") == Join(Spaced(xs), ",")
    decreases |xs|
  {
    if |xs| > 1 {
      var tail := xs[1..];
      JoinSpaced(tail);
      var rest := Spaced(tail)[1..];
      SpacedCons(xs);
      JoinHead(" ", tail[0], rest, ",");
      var j := Join(Spaced(tail), ",");
      assert Join(xs, ", ") == xs[0] + ", " + j;
      assert Join(Spaced(xs), ",") == xs[0] + "," + (" " + j);
    }
  }

  /** The spaced pieces of a list of two or more entries: its first entry,
      then the spaced pieces of the rest with a space before the first. */
  lemma SpacedCons(xs: seq<string>)
    requires |xs| > 1
    ensures Spaced(xs)[0] == xs[0]
    ensures Spaced(xs[1..]) == [xs[1]] + Spaced(xs[1..])[1..]
    ensures Spaced(xs)[1..] == [" " + xs[1]] + Spaced(xs[1..])[1..]
  {
    var tail := xs[1..];
    assert forall i :: 1 <= i < |tail| ==> Spaced(tail)[i] == " " + xs[i + 1];
  }

  /** Trimming the spaced pieces of clean entries gives the entries. */
  lemma TrimSpaced(xs: seq<string>)
    requires forall k :: 0 <= k < |xs| ==> CleanEntry(xs[k])
    ensures var ys := Spaced(xs); seq(|ys|, i requires 0 <= i < |ys| => Trim(ys[i])) == xs
  {
    var ys := Spaced(xs);
    forall i | 0 <= i < |xs| ensures Trim(ys[i]) == xs[i] {
      if i == 0 {
        TrimOfTrimmed(xs[0]);
      } else {
        TrimPadded(" ", xs[i], "");
        assert " " + xs[i] + "" == ys[i];
      }
    }
  }

  /** The spaced pieces of clean entries hold no comma. */
  lemma SpacedNoComma(xs: seq<string>)
    requires forall k :: 0 <= k < |xs| ==> CleanEntry(xs[k])
    ensures forall k :: 0 <= k < |xs| ==> ',' !in Spaced(xs)[k]
  {
    forall k | 0 <= k < |xs| ensures ',' !in Spaced(xs)[k] {
      if k > 0 {
        assert Spaced(xs)[k] == [' '] + xs[k];
      }
    }
  }

  /** Showing clean entries joined with ", " and parsing the text gives
      the entries back. */
  lemma ParseShown(xs: seq<string>)
    requires forall k :: 0 <= k < |xs| ==> CleanEntry(xs[k])
    ensures ParseList(Join(xs, ", ")) == xs
  {
    if xs == [] {
      assert Split("", ',') == [""];
    } else {
      var ys := Spaced(xs);
      JoinSpaced(xs);
      SpacedNoComma(xs);
      SplitJoin(ys, ',');
      assert Split(Join(xs, ", "), ',') == ys;
      TrimSpaced(xs);
      AnswerFormat.NonEmptyAll(xs);
    }
  }

  /** The strings of an array of entries. */
  function Strs(xs: seq<string>): (r: seq<Value>)
    ensures |r| == |xs|
  {
    seq(|xs|, i requires 0 <= i < |xs| => Str(xs[i]))
  }

  /** The value a cell input stores for the text typed into it: the list
      parsed from it for a multi-text column, the text itself otherwise. */
  function EditedCell(col: TableColumn, text: string): Value {
    if col.kind == MultiTextColumn then Arr(Strs(ParseList(text))) else Str(text)
  }

  /** The text a cell input shows. */
  function CellInputText(col: TableColumn, cell: Value): string {
    if col.kind == MultiTextColumn then MultiTextCellText(cell) else TextCellText(cell)
  }

  /** A text or date cell shows what was typed; a multi-text cell shows the
      parsed list, and parsing what it shows stores the same list again. */
  lemma EditShowEdit(col: TableColumn, text: string)
    ensures col.kind != MultiTextColumn ==> CellInputText(col, EditedCell(col, text)) == text
    ensures col.kind == MultiTextColumn ==>
              && CellInputText(col, EditedCell(col, text)) == Join(ParseList(text), ", ")
              && EditedCell(col, CellInputText(col, EditedCell(col, text))) == EditedCell(col, text)
  {
    if col.kind == MultiTextColumn {
      var xs := ParseList(text);
      ShownStrs(xs);
      ParseListClean(text);
      ParseShown(xs);
    }
  }

  /** A list of strings shows as the strings joined with ", ". */
  lemma ShownStrs(xs: seq<string>)
    ensures MultiTextCellText(Arr(Strs(xs))) == Join(xs, ", ")
  {
    var items := Strs(xs);
    assert seq(|items|, i requires 0 <= i < |items| => if IsNullish(items[i]) then "" else ToStr(items[i])) == xs;
  }
}
