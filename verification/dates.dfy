/**
 * ECMAScript time values as the lambdas see them. A date string from the
 * feed is kept next to what `new Date(string)` makes of it; the parser itself
 * is engine-defined and is not part of this model, so its result is an input.
 */
module Dates {
  import opened Wrappers

  /** The largest magnitude of a valid time value, in milliseconds (100,000,000 days). */
  const MaxTimeMs: int := 8_640_000_000_000_000

  /** One hour in milliseconds. */
  const HourMs: int := 60 * 60 * 1000

  /** A date string and the milliseconds the engine's parser reads from it (None when unparsable). */
  datatype DateText = DateText(text: string, parsed: Option<int>)

  /** True when `t` lies in the range a Date object can hold. */
  predicate InRange(t: int) {
    -MaxTimeMs <= t <= MaxTimeMs
  }

  /** TimeClip: a time value outside the Date range becomes NaN (None). */
  function TimeClip(t: Option<int>): (r: Option<int>)
    ensures r.Some? <==> t.Some? && InRange(t.value)
    ensures r.Some? ==> r == t
  {
    if t.Some? && InRange(t.value) then t else None
  }

  /** `new Date(d).getTime()`: the clipped parse, None standing for NaN. */
  function TimeValue(d: DateText): (r: Option<int>)
    ensures r.Some? ==> InRange(r.value) && d.parsed == r
    ensures d.parsed.Some? && InRange(d.parsed.value) ==> r == d.parsed
  {
    TimeClip(d.parsed)
  }

  /** The relational `<` on two Date objects: any comparison with NaN is false. */
  predicate Before(a: Option<int>, b: Option<int>) {
    a.Some? && b.Some? && a.value < b.value
  }
}
