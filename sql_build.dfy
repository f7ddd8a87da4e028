/** rchat/repository/helpers.py: turning a model dump into the pieces of an INSERT statement. */
module SqlBuild {
  import Sorting

  /** A value bound to a `$i` placeholder. */
  datatype SqlValue = Null | Str(text: string) | Uuid(uuid: int) | Int(number: int) | Bool(flag: bool)

  /** One entry of a pydantic `model_dump()`: field name and value, in declaration order. */
  type Field = (string, SqlValue)

  /** `SQLBuild`. */
  datatype SqlParts = SqlParts(fieldNames: string, placeholders: string, values: seq<SqlValue>)

  function Digit(d: nat): (c: char)
    requires d < 10
    ensures '0' <= c <= '9'
  {
    "0123456789"[d]
  }

  /** Python's `str()` of a natural number. */
  function NatToString(n: nat): (s: string)
    ensures 1 <= |s|
    ensures 10 <= n ==> 2 <= |s|
    decreases n
  {
    if n < 10 then [Digit(n)] else NatToString(n / 10) + [Digit(n % 10)]
  }

  lemma DigitInjective(a: nat, b: nat)
    requires a < 10 && b < 10 && Digit(a) == Digit(b)
    ensures a == b
  {
  }

  lemma {:induction false} NatToStringInjective(a: nat, b: nat)
    requires NatToString(a) == NatToString(b)
    ensures a == b
    decreases a
  {
    var sa, sb := NatToString(a), NatToString(b);
    if a < 10 && b < 10 {
      DigitInjective(a, b);
    } else if 10 <= a && 10 <= b {
      assert sa[..|sa| - 1] == NatToString(a / 10);
      assert sb[..|sb| - 1] == NatToString(b / 10);
      NatToStringInjective(a / 10, b / 10);
      assert sa[|sa| - 1] == Digit(a % 10) && sb[|sb| - 1] == Digit(b % 10);
      DigitInjective(a % 10, b % 10);
    }
  }

  /** The placeholder `f"${i}"`. */
  function Placeholder(i: nat): string
  {
    "$" + NatToString(i)
  }

  /** `["$1", ..., "$n"]`: the placeholders of an n-field insert. */
  function Placeholders(n: nat): (ps: seq<string>)
    ensures |ps| == n
  {
    seq(n, (i: int) requires 0 <= i => Placeholder(i + 1))
  }

  /** Different numbers give different placeholders. */
  lemma PlaceholderInjective(a: nat, b: nat)
    requires Placeholder(a) == Placeholder(b)
    ensures a == b
  {
    var pa, pb := Placeholder(a), Placeholder(b);
    assert pa[1..] == NatToString(a);
    assert pb[1..] == NatToString(b);
    NatToStringInjective(a, b);
  }

  /** The i-th placeholder (0-based) is `$` followed by i+1, so no two placeholders coincide. */
  lemma PlaceholdersDistinct(n: nat, i: nat, j: nat)
    requires i < n && j < n && i != j
    ensures Placeholders(n)[i] == "$" + NatToString(i + 1)
    ensures Placeholders(n)[i] != Placeholders(n)[j]
  {
    var ps := Placeholders(n);
    assert ps[i] == Placeholder(i + 1) && ps[j] == Placeholder(j + 1);
    if ps[i] == ps[j] {
      PlaceholderInjective(i + 1, j + 1);
    }
  }

  /** Python's `sep.join(xs)`. */
  function Join(sep: string, xs: seq<string>): (s: string)
    ensures xs != [] ==> xs[0] <= s
    ensures xs != [] ==> |xs[|xs| - 1]| <= |s| && s[|s| - |xs[|xs| - 1]|..] == xs[|xs| - 1]
  {
    if xs == [] then ""
    else if |xs| == 1 then xs[0]
    else xs[0] + sep + Join(sep, xs[1..])
  }

  /** Splits `s` at every `,` followed by a space: the inverse of `Join(", ", _)`. */
  function SplitComma(s: string): (parts: seq<string>)
    ensures 1 <= |parts|
    decreases |s|
  {
    if |s| < 2 then [s]
    else if s[0] == ',' && s[1] == ' ' then [""] + SplitComma(s[2..])
    else
      var rest := SplitComma(s[1..]);
      [[s[0]] + rest[0]] + rest[1..]
  }

  ghost predicate NoComma(x: string)
  {
    forall k :: 0 <= k < |x| ==> x[k] != ','
  }

  lemma {:induction false} SplitCommaAppend(x: string, tail: string)
    requires NoComma(x)
    ensures SplitComma(x + ", " + tail) == [x] + SplitComma(tail)
    decreases |x|
  {
    if x == [] {
      assert x + ", " + tail == ", " + tail;
    } else {
      var s := x + ", " + tail;
      assert s[1..] == x[1..] + ", " + tail;
      SplitCommaAppend(x[1..], tail);
      assert [x[0]] + x[1..] == x;
    }
  }

  lemma {:induction false} SplitCommaSingle(x: string)
    requires NoComma(x)
    ensures SplitComma(x) == [x]
    decreases |x|
  {
    if 2 <= |x| {
      SplitCommaSingle(x[1..]);
      assert [x[0]] + x[1..] == x;
    }
  }

  /** Joining names that hold no comma with `", "` loses nothing: splitting gives them back. */
  lemma {:induction false} JoinSplitRoundTrip(xs: seq<string>)
    requires xs != []
    requires forall i :: 0 <= i < |xs| ==> NoComma(xs[i])
    ensures SplitComma(Join(", ", xs)) == xs
  {
    if |xs| == 1 {
      SplitCommaSingle(xs[0]);
    } else {
      JoinSplitRoundTrip(xs[1..]);
      SplitCommaAppend(xs[0], Join(", ", xs[1..]));
    }
  }

  /** A field whose value is not `None`. */
  predicate HasValue(f: Field)
  {
    f.1 != Null
  }

  /** `model_dump(exclude_none=...)`: the fields in order, without the `None` ones when asked. */
  function Dump(model: seq<Field>, excludeNone: bool): (d: seq<Field>)
    ensures |d| <= |model|
    ensures excludeNone ==> forall i :: 0 <= i < |d| ==> d[i].1 != Null
    ensures !excludeNone ==> d == model
    ensures forall i :: 0 <= i < |d| ==> d[i] in model
    ensures excludeNone ==> d == Sorting.Filter(model, HasValue)
    ensures excludeNone ==> forall i :: 0 <= i < |model| && model[i].1 != Null ==> model[i] in d
  {
    if model == [] then []
    else if excludeNone && model[0].1 == Null then Dump(model[1..], excludeNone)
    else [model[0]] + Dump(model[1..], excludeNone)
  }

  function Names(fields: seq<Field>): (ns: seq<string>)
    ensures |ns| == |fields|
  {
    seq(|fields|, i requires 0 <= i < |fields| => fields[i].0)
  }

  /** The three lists `build_model` fills in step, one entry per dumped field. */
  method CollectParts(dump: seq<Field>) returns (fieldNames: seq<string>, placeholders: seq<string>, values: seq<SqlValue>)
    ensures |fieldNames| == |dump| && |placeholders| == |dump| && |values| == |dump|
    ensures forall k :: 0 <= k < |dump| ==> fieldNames[k] == dump[k].0
    ensures forall k :: 0 <= k < |dump| ==> placeholders[k] == Placeholder(k + 1)
    ensures forall k :: 0 <= k < |dump| ==> values[k] == dump[k].1
  {
    fieldNames, placeholders, values := [], [], [];
    var i := 0;
    while i < |dump|
      invariant 0 <= i <= |dump|
      invariant |fieldNames| == i && |placeholders| == i && |values| == i
      invariant forall k :: 0 <= k < i ==> fieldNames[k] == dump[k].0
      invariant forall k :: 0 <= k < i ==> placeholders[k] == Placeholder(k + 1)
      invariant forall k :: 0 <= k < i ==> values[k] == dump[k].1
    {
      fieldNames := fieldNames + [dump[i].0];
      placeholders := placeholders + [Placeholder(i + 1)];
      values := values + [dump[i].1];
      i := i + 1;
    }
  }

  /**
   * `build_model`: one loop over the enumerated dump fills the three lists
   * in step, so the i-th name, the i-th placeholder `$(i+1)` and the i-th
   * value belong to the same field.
   */
  method BuildModel(model: seq<Field>, excludeNone: bool := false) returns (b: SqlParts)
    ensures var d := Dump(model, excludeNone);
      && |b.values| == |d|
      && (forall i :: 0 <= i < |d| ==> b.values[i] == d[i].1)
      && b.fieldNames == Join(", ", Names(d))
      && b.placeholders == Join(", ", Placeholders(|d|))
    ensures excludeNone ==> Null !in b.values
  {
    var dump := Dump(model, excludeNone);
    var fieldNames, placeholders, values := CollectParts(dump);
    assert fieldNames == Names(dump);
    assert placeholders == Placeholders(|dump|);
    b := SqlParts(Join(", ", fieldNames), Join(", ", placeholders), values);
  }
}
