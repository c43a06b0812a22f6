/** The JavaScript values that answers are made of, and the few string
    operations of the JavaScript runtime that the formatter, the wrapper and
    the editors rely on (`trim`, `split`, `join`, `String(v)`, property
    access and `Object.entries`). */
module JsValues {

  /** The one JavaScript exception the report and the validation rules
      can raise. */
  datatype JsError = TypeError

  /** A computation that returns a value or throws. */
  datatype Result<+T> = Ok(value: T) | Throws(error: JsError)

  datatype Option<+T> = None | Some(value: T)

  /** A JavaScript number: the integers, and the three non-finite values.
      Non-integer finite numbers are not part of this model. */
  datatype Number = Int(i: int) | NaN | Infinity | NegInfinity {
    predicate IsFinite() { Int? }
  }

  /** A JavaScript value as it can appear in an answer map.  An object keeps
      its own enumerable properties in insertion order, the order
      `Object.entries` reports. */
  datatype Value =
    | Null
    | Undefined
    | Str(s: string)
    | Num(n: Number)
    | Bool(b: bool)
    | Arr(items: seq<Value>)
    | Obj(entries: seq<(string, Value)>)

  /** `v == null` is true of exactly null and undefined. */
  predicate IsNullish(v: Value) {
    v.Null? || v.Undefined?
  }

  /** The characters ECMAScript counts as WhiteSpace or LineTerminator: the
      set that `String.prototype.trim` strips and the regular-expression
      class `\s` matches. */
  predicate IsWs(c: char) {
    || c == '\t' || c == '\n' || c == '\U{000B}' || c == '\U{000C}' || c == '\r'
    || c == ' ' || c == '\U{00A0}' || c == '\U{1680}'
    || ('\U{2000}' <= c <= '\U{200A}')
    || c == '\U{2028}' || c == '\U{2029}' || c == '\U{202F}' || c == '\U{205F}'
    || c == '\U{3000}' || c == '\U{FEFF}'
  }

  predicate NoWs(s: string) {
    forall i :: 0 <= i < |s| ==> !IsWs(s[i])
  }

  predicate AllWs(s: string) {
    forall i :: 0 <= i < |s| ==> IsWs(s[i])
  }

  /** Neither starts nor ends with whitespace. */
  predicate IsTrimmed(s: string) {
    s == [] || (!IsWs(s[0]) && !IsWs(s[|s| - 1]))
  }

  function TrimStart(s: string): (r: string)
    ensures |r| <= |s| && r == s[|s| - |r|..]
    ensures AllWs(s[..|s| - |r|])
    ensures r == [] || !IsWs(r[0])
  {
    if s != [] && IsWs(s[0]) then TrimStart(s[1..]) else s
  }

  function TrimEnd(s: string): (r: string)
    ensures |r| <= |s| && r == s[..|r|]
    ensures AllWs(s[|r|..])
    ensures r == [] || !IsWs(r[|r| - 1])
  {
    if s != [] && IsWs(s[|s| - 1]) then TrimEnd(s[..|s| - 1]) else s
  }

  /** `s.trim()`: the leading and trailing whitespace dropped. */
  function Trim(s: string): (r: string)
    ensures IsTrimmed(r)
  {
    TrimEnd(TrimStart(s))
  }

  /** `s` is the whitespace `s[..k]`, then `r`, then whitespace. */
  predicate PaddedAt(s: string, r: string, k: int) {
    0 <= k <= |s| - |r| && s[k..k + |r|] == r && AllWs(s[..k]) && AllWs(s[k + |r|..])
  }

  /** `s` is some whitespace, then its trim, then some whitespace. */
  lemma TrimShape(s: string)
    ensures exists k :: PaddedAt(s, Trim(s), k)
  {
    var t := TrimStart(s);
    var k := |s| - |t|;
    var r := TrimEnd(t);
    assert PaddedAt(s, r, k) by {
      assert t == s[k..];
      assert s[k..k + |r|] == t[..|r|];
      assert s[k + |r|..] == t[|r|..];
    }
    assert Trim(s) == r;
  }

  lemma TrimOfTrimmed(s: string)
    requires IsTrimmed(s)
    ensures Trim(s) == s
  {
  }

  /** A string trims to the empty string exactly when it is all whitespace. */
  lemma TrimBlank(s: string)
    ensures Trim(s) == [] <==> AllWs(s)
  {
    var t := TrimStart(s);
    if Trim(s) == [] {
      assert AllWs(t[0..]);
      assert s == s[..|s| - |t|] + t;
    }
  }

  lemma {:induction false} TrimStartPadded(pad: string, x: string)
    requires AllWs(pad) && (x == [] || !IsWs(x[0]))
    ensures TrimStart(pad + x) == x
  {
    if pad == [] {
      assert pad + x == x;
    } else {
      assert (pad + x)[1..] == pad[1..] + x;
      TrimStartPadded(pad[1..], x);
    }
  }

  lemma {:induction false} TrimEndPadded(x: string, pad: string)
    requires AllWs(pad) && (x == [] || !IsWs(x[|x| - 1]))
    ensures TrimEnd(x + pad) == x
  {
    if pad == [] {
      assert x + pad == x;
    } else {
      assert (x + pad)[..|x + pad| - 1] == x + pad[..|pad| - 1];
      TrimEndPadded(x, pad[..|pad| - 1]);
    }
  }

  /** Whitespace around a trimmed string is exactly what `trim` drops. */
  lemma TrimPadded(before: string, x: string, after: string)
    requires AllWs(before) && IsTrimmed(x) && AllWs(after)
    ensures Trim(before + x + after) == x
  {
    if x == [] {
      assert before + x + after == before + after;
      TrimBlank(before + after);
    } else {
      assert before + x + after == before + (x + after);
      TrimStartPadded(before, x + after);
      TrimEndPadded(x, after);
    }
  }

  function DigitChar(d: int): (c: char)
    requires 0 <= d < 10
    ensures '0' <= c <= '9'
  {
    ('0' as int + d) as char
  }

  predicate AllDigits(s: string) {
    forall i :: 0 <= i < |s| ==> '0' <= s[i] <= '9'
  }

  /** The decimal digits of `n`, most significant first, no leading zero. */
  function NatToString(n: nat): (r: string)
    ensures 1 <= |r|
    ensures AllDigits(r)
    ensures |r| > 1 ==> r[0] != '0'
  {
    if n < 10 then [DigitChar(n)] else NatToString(n / 10) + [DigitChar(n % 10)]
  }

  /** `String(n)` for an integer. */
  function IntToString(i: int): (r: string)
    ensures 1 <= |r|
    ensures NoWs(r)
  {
    if i < 0 then "-" + NatToString(-i) else NatToString(i)
  }

  /** `String(n)` for a number. */
  function NumberToString(n: Number): (r: string)
    ensures 1 <= |r| && NoWs(r)
  {
    match n
    case Int(i) => IntToString(i)
    case NaN => "NaN"
    case Infinity => "Infinity"
    case NegInfinity => "-Infinity"
  }

  /** `String(v)`.  An array joins its elements with "," and writes null and
      undefined elements as empty strings (`Array.prototype.join`); a plain
      object prints as "[object Object]". */
  function ToStr(v: Value): (r: string)
    decreases v
  {
    match v
    case Null => "null"
    case Undefined => "undefined"
    case Str(s) => s
    case Num(n) => NumberToString(n)
    case Bool(b) => if b then "true" else "false"
    case Arr(items) =>
      Join(seq(|items|, i requires 0 <= i < |items| =>
                 if IsNullish(items[i]) then "" else ToStr(items[i])), ",")
    case Obj(_) => "[object Object]"
  }

  /** `xs.join(sep)`. */
  function Join(xs: seq<string>, sep: string): (r: string)
  {
    if xs == [] then ""
    else if |xs| == 1 then xs[0]
    else xs[0] + sep + Join(xs[1..], sep)
  }

  /** The value of the first entry named `key`, or undefined. */
  function Lookup(entries: seq<(string, Value)>, key: string): (r: Value)
    ensures r != Undefined ==> exists i :: 0 <= i < |entries| && entries[i] == (key, r)
    ensures (forall i :: 0 <= i < |entries| ==> entries[i].0 != key) ==> r == Undefined
  {
    if entries == [] then Undefined
    else if entries[0].0 == key then entries[0].1
    else Lookup(entries[1..], key)
  }

  /** `v[key]`: reading a property of null or undefined throws a TypeError;
      reading an object finds its own property; every other value has no
      property of that name.  (Index properties, "length" and the names
      inherited from `Object.prototype` are not part of this model.) */
  function Get(v: Value, key: string): (r: Result<Value>)
    ensures r.Throws? <==> IsNullish(v)
    ensures !v.Obj? && !IsNullish(v) ==> r == Ok(Undefined)
  {
    match v
    case Null => Throws(TypeError)
    case Undefined => Throws(TypeError)
    case Obj(entries) => Ok(Lookup(entries, key))
    case _ => Ok(Undefined)
  }

  /** The own entries of an array, keyed "0", "1", ... */
  function IndexEntries(items: seq<Value>): (r: seq<(string, Value)>)
    ensures |r| == |items|
    ensures forall i :: 0 <= i < |r| ==> r[i] == (NatToString(i), items[i])
  {
    seq(|items|, i requires 0 <= i < |items| => (NatToString(i), items[i]))
  }

  /** `Object.entries(typeof v === "object" && v ? v : {})`: arrays are
      objects too, every other value has no entries. */
  function Entries(v: Value): (r: seq<(string, Value)>)
    ensures v.Obj? ==> r == v.entries
    ensures !v.Obj? && !v.Arr? ==> r == []
  {
    match v
    case Obj(entries) => entries
    case Arr(items) => IndexEntries(items)
    case _ => []
  }

  /** The position of the first `c` in `s`. */
  function IndexOf(s: string, c: char): (i: nat)
    requires c in s
    ensures i < |s| && s[i] == c && c !in s[..i]
  {
    if s[0] == c then 0 else 1 + IndexOf(s[1..], c)
  }

  /** `s.split(sep)` for a one-character separator: the pieces between
      occurrences of `sep`, the empty ones included. */
  function Split(s: string, sep: char): (r: seq<string>)
    ensures 1 <= |r|
    ensures forall k :: 0 <= k < |r| ==> sep !in r[k]
    decreases |s|
  {
    if sep !in s then [s]
    else
      var i := IndexOf(s, sep);
      [s[..i]] + Split(s[i + 1..], sep)
  }

  /** Joining pieces that do not contain the separator and splitting again
      gives the pieces back. */
  lemma {:induction false} SplitJoin(xs: seq<string>, sep: char)
    requires 1 <= |xs|
    requires forall k :: 0 <= k < |xs| ==> sep !in xs[k]
    ensures Split(Join(xs, [sep]), sep) == xs
  {
    if |xs| == 1 {
    } else {
      var s := Join(xs, [sep]);
      assert s == xs[0] + [sep] + Join(xs[1..], [sep]);
      assert s[|xs[0]|] == sep;
      assert s[..|xs[0]|] == xs[0];
      assert IndexOf(s, sep) == |xs[0]|;
      assert s[|xs[0]| + 1..] == Join(xs[1..], [sep]);
      SplitJoin(xs[1..], sep);
    }
  }

  /** The index of the first whitespace character, or |s|. */
  function FirstWs(s: string): (i: nat)
    ensures i <= |s| && NoWs(s[..i])
    ensures i < |s| ==> IsWs(s[i])
  {
    if s == [] then 0
    else if IsWs(s[0]) then 0
    else
      var i := 1 + FirstWs(s[1..]);
      assert s[..i] == [s[0]] + s[1..][..i - 1];
      i
  }

  /** The end of the run of whitespace that starts at `i`. */
  function SkipWs(s: string, i: nat): (j: nat)
    requires i <= |s|
    ensures i <= j <= |s|
    ensures forall k :: i <= k < j ==> IsWs(s[k])
    ensures j < |s| ==> !IsWs(s[j])
    decreases |s| - i
  {
    if i < |s| && IsWs(s[i]) then SkipWs(s, i + 1) else i
  }

  /** `s.split(/\s+/)`: the pieces between maximal runs of whitespace.  A
      leading (trailing) run yields an empty first (last) piece, and the
      empty string yields one empty piece. */
  function SplitWs(s: string): (r: seq<string>)
    ensures 1 <= |r|
    ensures forall k :: 0 <= k < |r| ==> NoWs(r[k])
    decreases |s|
  {
    var i := FirstWs(s);
    if i == |s| then [s]
    else [s[..i]] + SplitWs(s[SkipWs(s, i + 1)..])
  }

  /** A non-empty trimmed string splits into non-empty words. */
  lemma {:induction false} SplitWsOfTrimmed(s: string)
    requires s != [] && IsTrimmed(s)
    ensures forall k :: 0 <= k < |SplitWs(s)| ==> SplitWs(s)[k] != []
  {
    var i := FirstWs(s);
    if i < |s| {
      var j := SkipWs(s, i + 1);
      assert i != 0;
      var rest := s[j..];
      assert rest[|rest| - 1] == s[|s| - 1];
      SplitWsOfTrimmed(rest);
      assert SplitWs(s) == [s[..i]] + SplitWs(rest);
    }
  }
}
