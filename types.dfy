/**
 * The values oozie_dump works on: instants, the workflow records of the
 * Oozie `/v1/jobs` response, CSV rows and the errors a pass can end with.
 */
module Types {

  /**
   * An instant (Go's `time.Time`), counted in nanoseconds from Go's zero
   * Time, 0001-01-01T00:00:00 UTC. Instants before it are negative.
   */
  type Instant = int

  /** Go's zero Time `time.Time{}`, which a `null` timestamp decodes to. */
  const ZeroInstant: Instant := 0

  /**
   * 2000-01-01T00:00:00 UTC, the marker used when no `_marker` file exists:
   * 730119 days after 0001-01-01 in the proleptic Gregorian calendar.
   */
  const SentinelInstant: Instant := 730119 * 86400 * 1000000000

  /** `a.Before(b)` of Go's `time.Time`. */
  predicate Before(a: Instant, b: Instant) { a < b }

  /** One workflow of the response; its `CustomTime` fields hold the instant they decoded to. */
  datatype Workflow = Workflow(
    status: string,
    createdTime: Instant,
    id: string,
    appName: string,
    user: string,
    lastModTime: Instant,
    endTime: Instant)

  /** The decoded response: `workflows` in the order the service listed them. */
  datatype Jobs = Jobs(total: int, workflows: seq<Workflow>, len: int, offset: int)

  /** One CSV record, as the fields handed to `csv.Writer.Write`. */
  type Row = seq<string>

  datatype Error =
    | TimeUnparsable(text: string)    // `time.Parse` of a timestamp failed
    | MarkerUnreadable(reason: string) // reading `_marker` failed for a reason other than absence
    | MarkerUnparsable(text: string)   // `_marker` holds text that is not an RFC 3339 instant
    | OutputNotCreated                 // `os.Create` of the CSV file failed
    | MarkerNotWritten                 // `ioutil.WriteFile` of `_marker` failed
}
