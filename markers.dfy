/**
 * `readMarker`: the watermark kept in `<outputDir>/_marker`. The file's
 * state is given as a value; the RFC 3339 parser (`time.Parse` with
 * `time.RFC3339`) is not part of this model and is passed in as `parse`.
 */
module Markers {
  import opened Wrappers
  import opened Types

  /** What reading `_marker` finds. */
  datatype MarkerFile =
    | Missing                     // the read fails with an error `os.IsNotExist` accepts
    | Unreadable(reason: string)  // the read fails for any other reason
    | Holds(text: string)         // the read returns these contents

  /** The marker a pass starts from, or the error that stops it. */
  function ReadMarker(f: MarkerFile, parse: string -> Option<Instant>): (r: Result<Instant, Error>)
    ensures f.Missing? ==> r == Ok(SentinelInstant)
    ensures f.Unreadable? ==> r == Err(MarkerUnreadable(f.reason))
    ensures f.Holds? ==> (r.Ok? <==> parse(f.text).Some?)
    ensures f.Holds? && r.Ok? ==> r.value == parse(f.text).value
  {
    match f
    case Missing => Ok(SentinelInstant)
    case Unreadable(reason) => Err(MarkerUnreadable(reason))
    case Holds(text) =>
      match parse(text)
      case Some(t) => Ok(t)
      case None => Err(MarkerUnparsable(text))
  }

  const NanosPerSecond: int := 1000000000

  /**
   * The layout the marker is written with. The program uses `time.RFC3339`
   * (`MARKER_FORMAT`), which has no fractional seconds; `time.RFC3339Nano`
   * keeps all nine digits.
   */
  datatype Layout = RFC3339 | RFC3339Nano

  /** `t` can be written in `layout` without losing anything. */
  predicate Exact(layout: Layout, t: Instant) {
    layout == RFC3339Nano || t % NanosPerSecond == 0
  }

  /**
   * What is left of `t` after it is written in `layout` and read back:
   * under `time.RFC3339` the fraction of a second is dropped (truncated
   * toward the past, as Go's formatter does).
   */
  function Kept(layout: Layout, t: Instant): (r: Instant)
    ensures Exact(layout, r)
    ensures r <= t
    ensures t - r < NanosPerSecond
    ensures Exact(layout, t) ==> r == t
  {
    if layout == RFC3339Nano then t else t - t % NanosPerSecond
  }

  /** Writing and reading back keeps the order of instants (not strictly). */
  lemma KeptMonotone(layout: Layout, a: Instant, b: Instant)
    requires a <= b
    ensures Kept(layout, a) <= Kept(layout, b)
  {
  }

  /** `parse` and `format` are the pair for `layout`: every instant reads back as what the layout keeps of it. */
  ghost predicate Keeps(layout: Layout, parse: string -> Option<Instant>, format: Instant -> string) {
    forall t :: parse(format(t)) == Some(Kept(layout, t))
  }

  /** The marker a pass writes is read back by the next pass as what the layout keeps of it. */
  lemma ReadBackWritten(t: Instant, layout: Layout, parse: string -> Option<Instant>, format: Instant -> string)
    requires Keeps(layout, parse, format)
    ensures ReadMarker(Holds(format(t)), parse) == Ok(Kept(layout, t))
    ensures Exact(layout, t) ==> ReadMarker(Holds(format(t)), parse) == Ok(t)
  {
  }
}
