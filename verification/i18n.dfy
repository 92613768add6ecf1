/**
 The part of message formatting the block picker relies on: `sprintf` with a
 single string argument, substituted for the first `%s` of the format.
 */
module I18n {
  import opened Wrappers

  /** A `%s` conversion starts at index `i` of `format`. */
  predicate PlaceholderAt(format: string, i: int) {
    0 <= i && i + 1 < |format| && format[i] == '%' && format[i + 1] == 's'
  }

  /** Index of the first `%s` in `format`, if any. */
  function FirstPlaceholder(format: string): (r: Option<nat>)
    ensures r.Some? ==> PlaceholderAt(format, r.value)
    ensures r.Some? ==> forall j :: 0 <= j < r.value ==> !PlaceholderAt(format, j)
    ensures r.None? ==> forall j :: !PlaceholderAt(format, j)
    decreases |format|
  {
    if |format| < 2 then None
    else if format[0] == '%' && format[1] == 's' then Some(0)
    else
      match FirstPlaceholder(format[1..])
      case None =>
        assert forall j :: PlaceholderAt(format, j) ==> PlaceholderAt(format[1..], j - 1);
        None
      case Some(i) =>
        assert forall j :: PlaceholderAt(format, j) ==> PlaceholderAt(format[1..], j - 1);
        Some(i + 1)
  }

  /** `sprintf(format, arg)`: the format with its first `%s` replaced by `arg`;
      a format without one comes back unchanged. */
  function Sprintf(format: string, arg: string): (r: string)
    ensures FirstPlaceholder(format).None? ==> r == format
    ensures FirstPlaceholder(format).Some? ==>
      var i := FirstPlaceholder(format).value;
      r == format[..i] + arg + format[i + 2..]
    decreases |format|
  {
    if |format| < 2 then format
    else if format[0] == '%' && format[1] == 's' then arg + format[2..]
    else
      var rest := Sprintf(format[1..], arg);
      assert FirstPlaceholder(format).Some? ==>
        var i := FirstPlaceholder(format).value;
        format[..i] == [format[0]] + format[1..][..i - 1] && format[i + 2..] == format[1..][i + 1..];
      [format[0]] + rest
  }

  /** The format's only `%` is the one that starts a `%s`: the formats on
      which substituting the first `%s` is all `sprintf` does. */
  predicate SinglePlaceholder(format: string) {
    exists i :: 0 <= i < |format| && PlaceholderAt(format, i) && forall j :: 0 <= j < |format| && format[j] == '%' ==> j == i
  }

  /** For a format with a single `%s` and no other `%`, the formatted text
      determines the argument. */
  lemma SprintfDeterminesArgument(format: string, a: string, b: string)
    requires SinglePlaceholder(format)
    ensures Sprintf(format, a) == Sprintf(format, b) <==> a == b
  {
    var i := FirstPlaceholder(format).value;
    var prefix, suffix := format[..i], format[i + 2..];
    var ra, rb := Sprintf(format, a), Sprintf(format, b);
    if ra == rb {
      assert |a| == |b|;
      assert ra[|prefix|..|prefix| + |a|] == a;
      assert rb[|prefix|..|prefix| + |b|] == b;
    }
  }
}
