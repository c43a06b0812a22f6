/** The multi-text editor (src/components/forms/fields/MultiTextFieldView.tsx):
    a list of entries with "Add", "Remove" and in-place editing.  Each
    operation hands a new list to `onChangeAction` and leaves the old one
    untouched, which value semantics gives here for free. */
module MultiTextEditing {
  import opened JsValues
  import opened ListEdits

  /** `add`: `[...(value ?? []), ""]`; a missing list (None) counts as
      empty. */
  function Add(value: Option<seq<Value>>): (r: seq<Value>)
    ensures var before := if value.Some? then value.value else [];
            |r| == |before| + 1 && r[..|before|] == before && r[|before|] == Str("")
  {
    (if value.Some? then value.value else []) + [Str("")]
  }

  /** `remove(i)`: `value.filter((_, idx) => idx !== i)`. */
  function Remove(value: seq<Value>, i: int): (r: seq<Value>)
    ensures 0 <= i < |value| ==> r == value[..i] + value[i + 1..]
    ensures !(0 <= i < |value|) ==> r == value
  {
    WithoutIndexSlices(value, i);
    WithoutIndex(value, i)
  }

  /** `update(i, next)`: `value.map((v, idx) => (idx === i ? next : v))`. */
  function Update(value: seq<Value>, i: int, next: string): (r: seq<Value>)
    ensures |r| == |value|
    ensures 0 <= i < |value| ==> r[i] == Str(next)
    ensures forall k :: 0 <= k < |value| && k != i ==> r[k] == value[k]
  {
    MapAt(value, i, _ => Str(next))
  }

  /** Removing the entry "Add" just made gives the old list back. */
  lemma RemoveAdded(value: seq<Value>)
    ensures Remove(Add(Some(value)), |value|) == value
  {
    WithoutLast(value, Str(""));
  }

  /** Removing an entry after editing it is removing it. */
  lemma RemoveUpdated(value: seq<Value>, i: int, next: string)
    ensures Remove(Update(value, i, next), i) == Remove(value, i)
  {
    WithoutEdited(value, i, _ => Str(next));
  }
}
