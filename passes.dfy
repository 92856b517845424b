/**
 * Passes: `readMarker` followed by `writeUpdate`, as `main` runs them, and
 * chains of passes where each pass reads the marker the previous one wrote.
 * The marker is written with `time.RFC3339`, which drops the fraction of a
 * second, so what the next pass reads is what that layout keeps.
 */
module Passes {
  import opened Wrappers
  import opened Types
  import opened AppNames
  import opened CustomTimes
  import opened Markers
  import opened Sync

  /** What one pass leaves behind: the CSV rows and the new `_marker` file. */
  datatype PassOutput = PassOutput(rows: seq<Row>, marker: MarkerFile)

  /** One pass over the workflows `ws`, starting from the marker file `f`, with every file-system call succeeding. */
  function Pass(ws: seq<Workflow>, f: MarkerFile, parse: string -> Option<Instant>, format: Instant -> string)
    : (r: Result<PassOutput, Error>)
    ensures r.Ok? <==> ReadMarker(f, parse).Ok?
    ensures r.Ok? ==> r.value.marker == Holds(format(NextMarker(ws, ReadMarker(f, parse).value)))
  {
    var markerTime :- ReadMarker(f, parse);
    Ok(PassOutput(CsvFile(ws, markerTime, format), Holds(format(NextMarker(ws, markerTime)))))
  }

  /**
   * `main` once the workflows are loaded: `readMarker` on the directory's
   * `_marker`, then `writeUpdate` from the marker read. A failed read stops
   * the pass before anything is written; otherwise the directory changes
   * exactly as `Pass` says, or fails as `disk` says.
   */
  method RunPass(jobs: Jobs, dir: OutputDir, parse: string -> Option<Instant>, format: Instant -> string,
                 disk: DiskOutcome)
    returns (err: Option<Error>)
    modifies dir
    ensures ReadMarker(old(dir.marker), parse).Err? ==>
      err == Some(ReadMarker(old(dir.marker), parse).error) && unchanged(dir)
    ensures ReadMarker(old(dir.marker), parse).Ok? && disk.createFails ==>
      err == Some(OutputNotCreated) && unchanged(dir)
    ensures ReadMarker(old(dir.marker), parse).Ok? && !disk.createFails ==>
      Pass(jobs.workflows, old(dir.marker), parse, format).Ok? &&
      dir.artifacts == old(dir.artifacts) + [Pass(jobs.workflows, old(dir.marker), parse, format).value.rows]
    ensures ReadMarker(old(dir.marker), parse).Ok? && !disk.createFails ==>
      dir.effects == old(dir.effects) +
        [ArtifactCreated, if disk.markerWrite.None? then MarkerWritten else MarkerWriteFailed, ArtifactFlushed]
    ensures ReadMarker(old(dir.marker), parse).Ok? && !disk.createFails && disk.markerWrite.None? ==>
      err == None && dir.marker == Pass(jobs.workflows, old(dir.marker), parse, format).value.marker
    ensures ReadMarker(old(dir.marker), parse).Ok? && !disk.createFails && disk.markerWrite.Some? ==>
      err == Some(MarkerNotWritten) && dir.marker == disk.markerWrite.value
  {
    var read := ReadMarker(dir.marker, parse);
    if read.Err? {
      return Some(read.error);
    }
    err := WriteUpdate(jobs, dir, read.value, format, disk);
  }

  /**
   * The header comes first and is always there; then one row per accepted
   * workflow; every row has nine fields.
   */
  lemma PassRows(ws: seq<Workflow>, f: MarkerFile, parse: string -> Option<Instant>, format: Instant -> string)
    requires ReadMarker(f, parse).Ok?
    ensures Pass(ws, f, parse, format).Ok?
    ensures Pass(ws, f, parse, format).value.rows[0] == Header
    ensures |Pass(ws, f, parse, format).value.rows| == 1 + |Accepted(ws, ReadMarker(f, parse).value)|
    ensures forall k :: 0 <= k < |Pass(ws, f, parse, format).value.rows| ==>
      |Pass(ws, f, parse, format).value.rows[k]| == 9
  {
    var markerTime := ReadMarker(f, parse).value;
    EmittedRows(ws, markerTime, format);
  }

  /**
   * The marker a pass writes reads back as what the marker layout keeps of
   * the running maximum: never earlier than what it keeps of the marker
   * read, and never earlier than the marker read itself when that one was
   * exact.
   */
  lemma PassNeverMovesBack(ws: seq<Workflow>, f: MarkerFile, layout: Layout,
                           parse: string -> Option<Instant>, format: Instant -> string)
    requires Keeps(layout, parse, format)
    requires ReadMarker(f, parse).Ok?
    ensures ReadMarker(Pass(ws, f, parse, format).value.marker, parse)
         == Ok(Kept(layout, NextMarker(ws, ReadMarker(f, parse).value)))
    ensures Kept(layout, ReadMarker(f, parse).value) <= ReadMarker(Pass(ws, f, parse, format).value.marker, parse).value
    ensures Exact(layout, ReadMarker(f, parse).value) ==>
      ReadMarker(f, parse).value <= ReadMarker(Pass(ws, f, parse, format).value.marker, parse).value
  {
    var markerTime := ReadMarker(f, parse).value;
    ReadBackWritten(NextMarker(ws, markerTime), layout, parse, format);
    KeptMonotone(layout, markerTime, NextMarker(ws, markerTime));
  }

  /**
   * As written: `_marker` holding a time with a fraction of a second, and
   * nothing accepted, is written back earlier than it was.
   */
  lemma MarkerMovesBack(parse: string -> Option<Instant>, format: Instant -> string)
    requires Keeps(RFC3339, parse, format)
    requires parse("2000-01-01T00:00:00.5Z") == Some(SentinelInstant + NanosPerSecond / 2)
    ensures Pass([], Holds("2000-01-01T00:00:00.5Z"), parse, format).Ok?
    ensures ReadMarker(Pass([], Holds("2000-01-01T00:00:00.5Z"), parse, format).value.marker, parse) == Ok(SentinelInstant)
  {
    PassNeverMovesBack([], Holds("2000-01-01T00:00:00.5Z"), RFC3339, parse, format);
  }

  /** With the marker written as `time.RFC3339Nano`, a pass never moves the marker back, whatever it read. */
  lemma MarkerNeverMovesBackNano(ws: seq<Workflow>, f: MarkerFile, parse: string -> Option<Instant>, format: Instant -> string)
    requires Keeps(RFC3339Nano, parse, format)
    requires ReadMarker(f, parse).Ok?
    ensures ReadMarker(Pass(ws, f, parse, format).value.marker, parse).Ok?
    ensures ReadMarker(f, parse).value <= ReadMarker(Pass(ws, f, parse, format).value.marker, parse).value
  {
    PassNeverMovesBack(ws, f, RFC3339Nano, parse, format);
  }

  /**
   * A pass that accepts nothing writes a header-only file and writes the
   * marker it read back to `_marker` (creating the file when it was missing).
   */
  lemma NoOpPass(ws: seq<Workflow>, f: MarkerFile, parse: string -> Option<Instant>, format: Instant -> string)
    requires ReadMarker(f, parse).Ok?
    requires forall w :: w in ws ==> !Accepts(w, ReadMarker(f, parse).value)
    ensures Pass(ws, f, parse, format) == Ok(PassOutput([Header], Holds(format(ReadMarker(f, parse).value))))
  {
    NothingAcceptedKeepsMarker(ws, ReadMarker(f, parse).value, format);
    assert [Header] + [] == [Header];
  }

  /**
   * Two matching workflows, one changed after the marker and one before it:
   * exactly one row follows the header, and the new marker is the
   * accepted workflow's `lastModTime`.
   */
  lemma TwoWorkflowScenario(w1: Workflow, w2: Workflow, markerTime: Instant, format: Instant -> string)
    requires Match(w1.appName).Some? && Match(w2.appName).Some?
    requires Before(markerTime, w1.lastModTime) && Before(w2.lastModTime, markerTime)
    ensures Emitted([w1, w2], markerTime, format) == [RowFor(w1, Match(w1.appName).value, format)]
    ensures NextMarker([w1, w2], markerTime) == w1.lastModTime
  {
    assert [w1, w2][1..] == [w2];
    assert [w2][1..] == [];
    assert Step(markerTime, markerTime, w1) == w1.lastModTime;
    assert Step(w1.lastModTime, markerTime, w2) == w1.lastModTime;
    assert Advance(w1.lastModTime, markerTime, [w2]) == Advance(w1.lastModTime, markerTime, []);
  }

  /** A workflow whose `lastModTime` was `null` is never accepted against a marker at or after the zero instant. */
  lemma NullNeverAccepted(w: Workflow, markerTime: Instant, parse: string -> Option<Instant>)
    requires w.lastModTime == DecodeTime("\"null\"", parse).0
    requires ZeroInstant <= markerTime
    ensures !Accepts(w, markerTime)
  {
    NullDecodesToZero(parse);
  }

  // ---------------------------------------------------------------------
  // Chains of passes
  // ---------------------------------------------------------------------

  /**
   * The marker pass `i` of a chain over `snapshots` reads: pass 0 reads
   * `markerTime`; each later pass reads what `layout` keeps of the running
   * maximum of the pass before it.
   */
  function MarkerAt(snapshots: seq<seq<Workflow>>, markerTime: Instant, layout: Layout, i: nat): (r: Instant)
    requires i <= |snapshots|
    ensures 0 < i ==> Exact(layout, r)
  {
    if i == 0 then markerTime
    else MarkerAt(snapshots[1..], Kept(layout, NextMarker(snapshots[0], markerTime)), layout, i - 1)
  }

  /** Pass `i` moves the marker from `MarkerAt(i)` to what the layout keeps of its running maximum. */
  lemma {:induction false} MarkerAtStep(snapshots: seq<seq<Workflow>>, markerTime: Instant, layout: Layout, i: nat)
    requires i < |snapshots|
    ensures MarkerAt(snapshots, markerTime, layout, i + 1)
         == Kept(layout, NextMarker(snapshots[i], MarkerAt(snapshots, markerTime, layout, i)))
  {
    if i > 0 {
      MarkerAtStep(snapshots[1..], Kept(layout, NextMarker(snapshots[0], markerTime)), layout, i - 1);
    }
  }

  /**
   * Across passes the marker read never moves back, once it is exact: from
   * the second pass on, or from the first when the starting marker is.
   */
  lemma {:induction false} MarkersAscend(snapshots: seq<seq<Workflow>>, markerTime: Instant, layout: Layout, i: nat, j: nat)
    requires i <= j <= |snapshots|
    requires 0 < i || Exact(layout, markerTime)
    ensures MarkerAt(snapshots, markerTime, layout, i) <= MarkerAt(snapshots, markerTime, layout, j)
    decreases j - i
  {
    if i < j {
      var m := MarkerAt(snapshots, markerTime, layout, i);
      MarkerAtStep(snapshots, markerTime, layout, i);
      KeptMonotone(layout, m, NextMarker(snapshots[i], m));
      MarkersAscend(snapshots, markerTime, layout, i + 1, j);
    }
  }

  /** The marker a pass writes keeps every accepted `lastModTime` the layout can write exactly. */
  lemma KeptPastAccepted(ws: seq<Workflow>, markerTime: Instant, layout: Layout, w: Workflow)
    requires w in Accepted(ws, markerTime)
    requires Exact(layout, w.lastModTime)
    ensures w.lastModTime <= Kept(layout, NextMarker(ws, markerTime))
  {
    NextMarkerIsMax(ws, markerTime);
    AcceptedMembers(ws, markerTime);
    KeptMonotone(layout, w.lastModTime, NextMarker(ws, markerTime));
  }

  /**
   * A workflow emitted by pass `i` whose `lastModTime` the layout keeps
   * exactly is not emitted again by a later pass unless its `lastModTime`
   * changes.
   */
  lemma NeverReemitted(snapshots: seq<seq<Workflow>>, markerTime: Instant, layout: Layout, i: nat, j: nat, w: Workflow)
    requires i < j <= |snapshots|
    requires w in Accepted(snapshots[i], MarkerAt(snapshots, markerTime, layout, i))
    requires Exact(layout, w.lastModTime)
    ensures !Accepts(w, MarkerAt(snapshots, markerTime, layout, j))
  {
    MarkerAtStep(snapshots, markerTime, layout, i);
    KeptPastAccepted(snapshots[i], MarkerAt(snapshots, markerTime, layout, i), layout, w);
    MarkersAscend(snapshots, markerTime, layout, i + 1, j);
  }

  /**
   * As written: a matching workflow changed half a second after the default
   * marker is emitted by the first pass and again by the second, because
   * the marker between them lost its fraction.
   */
  lemma ReemittedAsWritten(w: Workflow)
    requires w.appName == "aws-reconciler-production-123456789012-2023-07"
    requires w.lastModTime == SentinelInstant + NanosPerSecond / 2
    ensures Accepted([w], MarkerAt([[w], [w]], SentinelInstant, RFC3339, 0)) == [w]
    ensures Accepted([w], MarkerAt([[w], [w]], SentinelInstant, RFC3339, 1)) == [w]
  {
    MatchExample();
    assert [w][1..] == [];
    assert Accepts(w, SentinelInstant);
    assert NextMarker([w], SentinelInstant) == w.lastModTime by {
      assert Step(SentinelInstant, SentinelInstant, w) == w.lastModTime;
      assert Advance(w.lastModTime, SentinelInstant, []) == w.lastModTime;
    }
    MarkerAtStep([[w], [w]], SentinelInstant, RFC3339, 0);
    assert Kept(RFC3339, w.lastModTime) == SentinelInstant;
  }

  /** With the marker written as `time.RFC3339Nano`, no workflow emitted by a pass is emitted by a later one. */
  lemma NeverReemittedNano(snapshots: seq<seq<Workflow>>, markerTime: Instant, i: nat, j: nat, w: Workflow)
    requires i < j <= |snapshots|
    requires w in Accepted(snapshots[i], MarkerAt(snapshots, markerTime, RFC3339Nano, i))
    ensures !Accepts(w, MarkerAt(snapshots, markerTime, RFC3339Nano, j))
  {
    NeverReemitted(snapshots, markerTime, RFC3339Nano, i, j, w);
  }

  /**
   * A workflow that first shows up after the marker a pass read has passed
   * its `lastModTime` is never emitted by that pass or a later one.
   */
  lemma LateArrivalSkipped(snapshots: seq<seq<Workflow>>, markerTime: Instant, layout: Layout, i: nat, j: nat, w: Workflow)
    requires i <= j <= |snapshots|
    requires 0 < i || Exact(layout, markerTime)
    requires w.lastModTime <= MarkerAt(snapshots, markerTime, layout, i)
    ensures !Accepts(w, MarkerAt(snapshots, markerTime, layout, j))
  {
    MarkersAscend(snapshots, markerTime, layout, i, j);
  }

  /** Starting without a marker file, no pass of a chain ever accepts a workflow whose `lastModTime` was `null`. */
  lemma NullNeverAcceptedInChain(snapshots: seq<seq<Workflow>>, layout: Layout, i: nat, w: Workflow,
                                 parseTime: Parser, parseMarker: string -> Option<Instant>)
    requires i <= |snapshots|
    requires w.lastModTime == DecodeTime("\"null\"", parseTime).0
    ensures !Accepts(w, MarkerAt(snapshots, ReadMarker(Missing, parseMarker).value, layout, i))
  {
    MarkersAscend(snapshots, SentinelInstant, layout, 0, i);
    NullNeverAccepted(w, MarkerAt(snapshots, SentinelInstant, layout, i), parseTime);
  }

  /** What a chain of passes leaves behind: one CSV file per pass and the last `_marker`. */
  datatype RunOutput = RunOutput(artifacts: seq<seq<Row>>, marker: MarkerFile)

  /** Passes over `snapshots` in turn, each reading the marker file the previous one wrote; the first failure stops the chain. */
  function Run(snapshots: seq<seq<Workflow>>, f: MarkerFile, parse: string -> Option<Instant>, format: Instant -> string)
    : (r: Result<RunOutput, Error>)
    ensures r.Ok? ==> |r.value.artifacts| == |snapshots|
  {
    if snapshots == [] then Ok(RunOutput([], f))
    else
      var first :- Pass(snapshots[0], f, parse, format);
      var rest :- Run(snapshots[1..], first.marker, parse, format);
      Ok(RunOutput([first.rows] + rest.artifacts, rest.marker))
  }

  /**
   * With the marker layout's parser and formatter, a chain of passes never
   * fails on the marker, and its last marker file reads back as the marker
   * after the last pass.
   */
  lemma {:induction false} RunFollowsMarkers(snapshots: seq<seq<Workflow>>, f: MarkerFile, markerTime: Instant,
                                             layout: Layout, parse: string -> Option<Instant>, format: Instant -> string)
    requires Keeps(layout, parse, format)
    requires ReadMarker(f, parse) == Ok(markerTime)
    ensures Run(snapshots, f, parse, format).Ok?
    ensures ReadMarker(Run(snapshots, f, parse, format).value.marker, parse)
         == Ok(MarkerAt(snapshots, markerTime, layout, |snapshots|))
  {
    if snapshots != [] {
      var next := NextMarker(snapshots[0], markerTime);
      ReadBackWritten(next, layout, parse, format);
      var first := Pass(snapshots[0], f, parse, format).value;
      assert first.marker == Holds(format(next));
      RunFollowsMarkers(snapshots[1..], first.marker, Kept(layout, next), layout, parse, format);
      var rest := Run(snapshots[1..], first.marker, parse, format).value;
      assert Run(snapshots, f, parse, format) == Ok(RunOutput([first.rows] + rest.artifacts, rest.marker));
    }
  }

  /** One pass from a marker file that reads as `markerTime`: its CSV file, and the marker the next pass reads. */
  lemma PassStep(ws: seq<Workflow>, f: MarkerFile, markerTime: Instant, layout: Layout,
                 parse: string -> Option<Instant>, format: Instant -> string)
    requires Keeps(layout, parse, format)
    requires ReadMarker(f, parse) == Ok(markerTime)
    ensures Pass(ws, f, parse, format).Ok?
    ensures Pass(ws, f, parse, format).value.rows == CsvFile(ws, markerTime, format)
    ensures ReadMarker(Pass(ws, f, parse, format).value.marker, parse) == Ok(Kept(layout, NextMarker(ws, markerTime)))
  {
    ReadBackWritten(NextMarker(ws, markerTime), layout, parse, format);
  }

  /** The first pass of a chain that goes through: its file comes first, the rest of the chain starts from its marker. */
  lemma RunFirst(snapshots: seq<seq<Workflow>>, f: MarkerFile, parse: string -> Option<Instant>, format: Instant -> string)
    requires snapshots != []
    requires Pass(snapshots[0], f, parse, format).Ok?
    requires Run(snapshots[1..], Pass(snapshots[0], f, parse, format).value.marker, parse, format).Ok?
    ensures Run(snapshots, f, parse, format).Ok?
    ensures Run(snapshots, f, parse, format).value.artifacts
         == [Pass(snapshots[0], f, parse, format).value.rows]
            + Run(snapshots[1..], Pass(snapshots[0], f, parse, format).value.marker, parse, format).value.artifacts
  {
  }

  /** File `i` of a chain is the CSV file of snapshot `i` filtered against the marker pass `i` read. */
  lemma {:induction false} RunArtifactAt(snapshots: seq<seq<Workflow>>, f: MarkerFile, markerTime: Instant, layout: Layout,
                                         parse: string -> Option<Instant>, format: Instant -> string, i: nat)
    requires Keeps(layout, parse, format)
    requires ReadMarker(f, parse) == Ok(markerTime)
    requires i < |snapshots|
    ensures Run(snapshots, f, parse, format).Ok?
    ensures |Run(snapshots, f, parse, format).value.artifacts| == |snapshots|
    ensures Run(snapshots, f, parse, format).value.artifacts[i]
         == CsvFile(snapshots[i], MarkerAt(snapshots, markerTime, layout, i), format)
  {
    var next := Kept(layout, NextMarker(snapshots[0], markerTime));
    PassStep(snapshots[0], f, markerTime, layout, parse, format);
    var first := Pass(snapshots[0], f, parse, format).value;
    RunFollowsMarkers(snapshots[1..], first.marker, next, layout, parse, format);
    RunFirst(snapshots, f, parse, format);
    if i > 0 {
      RunArtifactAt(snapshots[1..], first.marker, next, layout, parse, format, i - 1);
      assert snapshots[1..][i - 1] == snapshots[i];
      assert MarkerAt(snapshots, markerTime, layout, i) == MarkerAt(snapshots[1..], Kept(layout, next), layout, i - 1);
    }
  }
}
