/**
 * `parse_var`: strips one layer of surrounding double quotes from a value.
 *
 * The source tests only that the value starts and ends with `"`, then slices
 * `value[1..len-1]`. For the one-character value `"` both tests pass and the
 * slice `1..0` is out of range, so the source panics. ParseVarAsWritten keeps
 * that behaviour (None is the panic); ParseVar is the same function with the
 * length guard the code evidently meant, and is what the loader uses.
 */
module Vars {
  import opened Wrappers

  const Quote: char := '"'

  /** Rust's `value.starts_with('"') && value.ends_with('"')`. */
  predicate QuotedAtBothEnds(value: string): (b: bool)
    ensures |value| == 1 ==> (b <==> value == [Quote])
  {
    |value| > 0 && value[0] == Quote && value[|value| - 1] == Quote
  }

  /** `parse_var` as written: None stands for the panic of an out-of-range slice. */
  function ParseVarAsWritten(value: string): (r: Option<string>)
    ensures r.None? <==> value == [Quote]
    ensures r.Some? && QuotedAtBothEnds(value) ==> [Quote] + r.value + [Quote] == value
    ensures r.Some? && !QuotedAtBothEnds(value) ==> r.value == value
  {
    if QuotedAtBothEnds(value) then
      // the slice value[1..len-1] exists only when 1 <= len - 1
      if 1 <= |value| - 1 then Some(value[1..|value| - 1]) else None
    else Some(value)
  }

  /** The lone quote passes both guards of the source and then panics. */
  lemma LoneQuotePanics()
    ensures QuotedAtBothEnds([Quote])
    ensures !(1 <= |[Quote]| - 1)
    ensures ParseVarAsWritten([Quote]) == None
  {
  }

  /** `parse_var` with the missing length guard: at least two characters are needed to strip a pair. */
  function ParseVar(value: string): (r: string)
    ensures |value| >= 2 && QuotedAtBothEnds(value) ==> [Quote] + r + [Quote] == value
    ensures !(|value| >= 2 && QuotedAtBothEnds(value)) ==> r == value
    ensures |r| == |value| || |r| == |value| - 2
  {
    if |value| >= 2 && QuotedAtBothEnds(value) then value[1..|value| - 1] else value
  }

  /** The corrected function agrees with the source wherever the source does not panic. */
  lemma ParseVarAgreesWithSource(value: string)
    requires value != [Quote]
    ensures ParseVarAsWritten(value) == Some(ParseVar(value))
  {
  }

  /** The corrected function returns a lone quote unchanged. */
  lemma ParseVarLoneQuote()
    ensures ParseVar([Quote]) == [Quote]
  {
  }

  /** Quoting any text and parsing it gives the text back. */
  lemma ParseVarRoundTrip(t: string)
    ensures ParseVar([Quote] + t + [Quote]) == t
  {
    var q := [Quote] + t + [Quote];
    assert q[1..|q| - 1] == t;
  }

  /** The result is never longer than the value. */
  lemma ParseVarNeverLonger(value: string)
    ensures |ParseVar(value)| <= |value|
  {
  }

  /** Only one layer is stripped, so parsing is not idempotent. */
  lemma ParseVarNotIdempotent()
    ensures ParseVar("\"\"a\"\"") == "\"a\""
    ensures ParseVar(ParseVar("\"\"a\"\"")) == "a"
  {
    assert "\"\"a\"\""[1..4] == "\"a\"";
    assert "\"a\""[1..2] == "a";
  }
}
