/** The two index-based array updates the field editors build their new
    lists with: `xs.filter((_, i) => i !== idx)` and
    `xs.map((x, i) => i === idx ? f(x) : x)`.  Both return a new array and
    leave the old one as it was. */
module ListEdits {

  /** `xs.filter((_, i) => i !== idx)`. */
  function WithoutIndex<T>(xs: seq<T>, idx: int): (r: seq<T>)
    ensures |r| <= |xs|
    decreases |xs|
  {
    if xs == [] then []
    else
      var n := |xs| - 1;
      WithoutIndex(xs[..n], idx) + (if n == idx then [] else [xs[n]])
  }

  /** Exactly the element at `idx` is gone and the others keep their order;
      an index out of range removes nothing. */
  lemma {:induction false} WithoutIndexSlices<T>(xs: seq<T>, idx: int)
    ensures 0 <= idx < |xs| ==> WithoutIndex(xs, idx) == xs[..idx] + xs[idx + 1..]
    ensures !(0 <= idx < |xs|) ==> WithoutIndex(xs, idx) == xs
    decreases |xs|
  {
    if xs != [] {
      var n := |xs| - 1;
      WithoutIndexSlices(xs[..n], idx);
      if idx == n {
        assert xs[idx + 1..] == [];
      } else if 0 <= idx < n {
        assert xs[..n][..idx] == xs[..idx];
        assert xs[..n][idx + 1..] + [xs[n]] == xs[idx + 1..];
      } else {
        assert xs[..n] + [xs[n]] == xs;
      }
    }
  }

  /** `xs.map((x, i) => i === idx ? f(x) : x)`. */
  function MapAt<T>(xs: seq<T>, idx: int, f: T -> T): (r: seq<T>)
    ensures |r| == |xs|
  {
    seq(|xs|, i requires 0 <= i < |xs| => if i == idx then f(xs[i]) else xs[i])
  }

  /** Only the element at `idx` changes, to `f` of itself; an index out of
      range changes nothing. */
  lemma MapAtUpdate<T>(xs: seq<T>, idx: int, f: T -> T)
    ensures 0 <= idx < |xs| ==> MapAt(xs, idx, f) == xs[idx := f(xs[idx])]
    ensures !(0 <= idx < |xs|) ==> MapAt(xs, idx, f) == xs
  {
  }

  /** Removing the element just appended gives the old list back. */
  lemma WithoutLast<T>(xs: seq<T>, x: T)
    ensures WithoutIndex(xs + [x], |xs|) == xs
  {
    WithoutIndexSlices(xs + [x], |xs|);
    assert (xs + [x])[..|xs|] == xs;
  }

  /** Removing an element after editing it is removing it: the edit leaves
      no trace. */
  lemma WithoutEdited<T>(xs: seq<T>, idx: int, f: T -> T)
    ensures WithoutIndex(MapAt(xs, idx, f), idx) == WithoutIndex(xs, idx)
  {
    MapAtUpdate(xs, idx, f);
    WithoutIndexSlices(xs, idx);
    WithoutIndexSlices(MapAt(xs, idx, f), idx);
    if 0 <= idx < |xs| {
      var ys := xs[idx := f(xs[idx])];
      assert ys[..idx] == xs[..idx];
      assert ys[idx + 1..] == xs[idx + 1..];
    }
  }
}
