/**
 * `writeUpdate`: one incremental pass over the workflows. A header row,
 * then one row per workflow whose name matches the pattern and whose
 * `lastModTime` is strictly after the marker, in input order; the running
 * maximum of the accepted `lastModTime`s, starting from the marker, is
 * written back as the new marker.
 */
module Sync {
  import opened Wrappers
  import opened Types
  import opened AppNames
  import opened Markers

  /** The header row, always the first row of the CSV file. */
  const Header: Row := ["id", "appName", "master", "year", "month", "status", "createdTime", "lastModTime", "endTime"]

  /** The selection rule: the name matches and the marker is strictly before `lastModTime`. */
  predicate Accepts(w: Workflow, markerTime: Instant) {
    Match(w.appName).Some? && Before(markerTime, w.lastModTime)
  }

  /** The selection rule in terms of the name's shape rather than the matcher. */
  lemma AcceptsShape(w: Workflow, markerTime: Instant)
    ensures Accepts(w, markerTime) <==>
      (exists p :: WellFormed(p) && Compose(p) == w.appName) && markerTime < w.lastModTime
  {
    MatchIff(w.appName);
  }

  /** The row written for an accepted workflow whose name split into `p`; `format` is RFC 3339 formatting. */
  function RowFor(w: Workflow, p: NameParts, format: Instant -> string): (r: Row)
    ensures |r| == |Header| == 9
  {
    [w.id, w.appName, p.master, p.year, p.month, w.status,
     format(w.createdTime), format(w.lastModTime), format(w.endTime)]
  }

  /** The rows the loop writes for `ws` after the header, as the loop produces them. */
  function Emitted(ws: seq<Workflow>, markerTime: Instant, format: Instant -> string): (rows: seq<Row>)
    ensures |rows| <= |ws|
  {
    if ws == [] then []
    else if Accepts(ws[0], markerTime) then
      [RowFor(ws[0], Match(ws[0].appName).value, format)] + Emitted(ws[1..], markerTime, format)
    else
      Emitted(ws[1..], markerTime, format)
  }

  /** The accepted workflows of `ws`, in input order. */
  function Accepted(ws: seq<Workflow>, markerTime: Instant): (r: seq<Workflow>)
    ensures |r| <= |ws|
  {
    if ws == [] then []
    else if Accepts(ws[0], markerTime) then [ws[0]] + Accepted(ws[1..], markerTime)
    else Accepted(ws[1..], markerTime)
  }

  /** One step of the running maximum: `lastMod` rises to an accepted workflow's later `lastModTime`. */
  function Step(lastMod: Instant, markerTime: Instant, w: Workflow): (r: Instant)
    ensures lastMod <= r
    ensures Accepts(w, markerTime) ==> w.lastModTime <= r
    ensures r == lastMod || (Accepts(w, markerTime) && r == w.lastModTime)
  {
    if Accepts(w, markerTime) && Before(lastMod, w.lastModTime) then w.lastModTime else lastMod
  }

  /** `lastMod` after the loop has walked `ws`. */
  function Advance(lastMod: Instant, markerTime: Instant, ws: seq<Workflow>): (r: Instant)
    ensures lastMod <= r
    decreases ws
  {
    if ws == [] then lastMod else Advance(Step(lastMod, markerTime, ws[0]), markerTime, ws[1..])
  }

  /** The marker the pass writes: `lastMod` starts at the marker read. */
  function NextMarker(ws: seq<Workflow>, markerTime: Instant): (r: Instant)
    ensures markerTime <= r
  {
    Advance(markerTime, markerTime, ws)
  }

  function Max(a: Instant, b: Instant): Instant { if a < b then b else a }

  /** Reference definition: the latest of `acc` and every `lastModTime` in `ws`. */
  function Latest(acc: Instant, ws: seq<Workflow>): (r: Instant)
    ensures acc <= r
    ensures forall w :: w in ws ==> w.lastModTime <= r
    ensures r == acc || exists w :: w in ws && r == w.lastModTime
  {
    if ws == [] then acc else Max(ws[0].lastModTime, Latest(acc, ws[1..]))
  }

  // ---------------------------------------------------------------------
  // Properties of the selection
  // ---------------------------------------------------------------------

  /** A workflow is among the accepted ones exactly when it is in the input and the selection rule accepts it. */
  lemma {:induction false} AcceptedMembers(ws: seq<Workflow>, markerTime: Instant)
    ensures forall w :: w in Accepted(ws, markerTime) <==> w in ws && Accepts(w, markerTime)
  {
    if ws != [] {
      AcceptedMembers(ws[1..], markerTime);
      assert forall w :: w in ws <==> w == ws[0] || w in ws[1..];
    }
  }

  /** Selection distributes over concatenation, so accepted workflows keep their input order. */
  lemma {:induction false} AcceptedAppend(a: seq<Workflow>, b: seq<Workflow>, markerTime: Instant)
    ensures Accepted(a + b, markerTime) == Accepted(a, markerTime) + Accepted(b, markerTime)
  {
    if a == [] {
      assert a + b == b;
    } else {
      assert (a + b)[0] == a[0];
      assert (a + b)[1..] == a[1..] + b;
      AcceptedAppend(a[1..], b, markerTime);
      if Accepts(a[0], markerTime) {
        assert [a[0]] + (Accepted(a[1..], markerTime) + Accepted(b, markerTime))
            == [a[0]] + Accepted(a[1..], markerTime) + Accepted(b, markerTime);
      }
    }
  }

  /** The `k`-th row after the header belongs to the `k`-th accepted workflow. */
  lemma {:induction false} EmittedAt(ws: seq<Workflow>, markerTime: Instant, format: Instant -> string, k: nat)
    requires k < |Accepted(ws, markerTime)|
    ensures |Emitted(ws, markerTime, format)| == |Accepted(ws, markerTime)|
    ensures Match(Accepted(ws, markerTime)[k].appName).Some?
    ensures Emitted(ws, markerTime, format)[k]
         == RowFor(Accepted(ws, markerTime)[k], Match(Accepted(ws, markerTime)[k].appName).value, format)
  {
    var w := ws[0];
    var rest := ws[1..];
    EmittedLength(ws, markerTime, format);
    if Accepts(w, markerTime) {
      var row := RowFor(w, Match(w.appName).value, format);
      assert Accepted(ws, markerTime) == [w] + Accepted(rest, markerTime);
      assert Emitted(ws, markerTime, format) == [row] + Emitted(rest, markerTime, format);
      if k > 0 {
        EmittedAt(rest, markerTime, format, k - 1);
        assert Accepted(ws, markerTime)[k] == Accepted(rest, markerTime)[k - 1];
        assert Emitted(ws, markerTime, format)[k] == Emitted(rest, markerTime, format)[k - 1];
      }
    } else {
      assert Accepted(ws, markerTime) == Accepted(rest, markerTime);
      assert Emitted(ws, markerTime, format) == Emitted(rest, markerTime, format);
      EmittedAt(rest, markerTime, format, k);
    }
  }

  /** One row after the header per accepted workflow. */
  lemma {:induction false} EmittedLength(ws: seq<Workflow>, markerTime: Instant, format: Instant -> string)
    ensures |Emitted(ws, markerTime, format)| == |Accepted(ws, markerTime)|
  {
    if ws != [] {
      EmittedLength(ws[1..], markerTime, format);
    }
  }

  /**
   * The rows after the header are exactly one row per accepted workflow, in
   * the same order, each carrying the workflow's fields and the groups its
   * name splits into.
   */
  lemma EmittedRows(ws: seq<Workflow>, markerTime: Instant, format: Instant -> string)
    ensures |Emitted(ws, markerTime, format)| == |Accepted(ws, markerTime)|
    ensures forall k :: 0 <= k < |Accepted(ws, markerTime)| ==>
      Match(Accepted(ws, markerTime)[k].appName).Some? &&
      Emitted(ws, markerTime, format)[k]
        == RowFor(Accepted(ws, markerTime)[k], Match(Accepted(ws, markerTime)[k].appName).value, format)
  {
    EmittedLength(ws, markerTime, format);
    forall k | 0 <= k < |Accepted(ws, markerTime)|
      ensures Match(Accepted(ws, markerTime)[k].appName).Some? &&
        Emitted(ws, markerTime, format)[k]
          == RowFor(Accepted(ws, markerTime)[k], Match(Accepted(ws, markerTime)[k].appName).value, format)
    {
      EmittedAt(ws, markerTime, format, k);
    }
  }

  /** A workflow whose `lastModTime` is at or before the marker, the marker itself included, is never accepted. */
  lemma NotAfterMarkerRejected(ws: seq<Workflow>, markerTime: Instant, w: Workflow)
    requires w.lastModTime <= markerTime
    ensures w !in Accepted(ws, markerTime)
  {
    AcceptedMembers(ws, markerTime);
  }

  // ---------------------------------------------------------------------
  // Properties of the new marker
  // ---------------------------------------------------------------------

  lemma {:induction false} LatestShift(a: Instant, t: Instant, ws: seq<Workflow>)
    ensures Latest(Max(a, t), ws) == Max(t, Latest(a, ws))
  {
    if ws != [] {
      LatestShift(a, t, ws[1..]);
    }
  }

  /** Rejected workflows do not move `lastMod`: the loop computes the latest of its start and the accepted `lastModTime`s. */
  lemma {:induction false} AdvanceIsLatest(lastMod: Instant, markerTime: Instant, ws: seq<Workflow>)
    ensures Advance(lastMod, markerTime, ws) == Latest(lastMod, Accepted(ws, markerTime))
    decreases ws
  {
    if ws != [] {
      var w := ws[0];
      AdvanceIsLatest(Step(lastMod, markerTime, w), markerTime, ws[1..]);
      if Accepts(w, markerTime) {
        LatestShift(lastMod, w.lastModTime, Accepted(ws[1..], markerTime));
        assert Step(lastMod, markerTime, w) == Max(lastMod, w.lastModTime);
      }
    }
  }

  /**
   * The new marker is the maximum of the marker read and the `lastModTime`
   * of every accepted workflow: never earlier than the marker read, never
   * earlier than an accepted workflow, and equal to one of them.
   */
  lemma NextMarkerIsMax(ws: seq<Workflow>, markerTime: Instant)
    ensures NextMarker(ws, markerTime) == Latest(markerTime, Accepted(ws, markerTime))
    ensures markerTime <= NextMarker(ws, markerTime)
    ensures forall w :: w in ws && Accepts(w, markerTime) ==> w.lastModTime <= NextMarker(ws, markerTime)
    ensures NextMarker(ws, markerTime) == markerTime
         || exists w :: w in Accepted(ws, markerTime) && NextMarker(ws, markerTime) == w.lastModTime
  {
    AdvanceIsLatest(markerTime, markerTime, ws);
    AcceptedMembers(ws, markerTime);
  }

  /** When nothing is accepted the marker written back is the marker read, and no row follows the header. */
  lemma NothingAcceptedKeepsMarker(ws: seq<Workflow>, markerTime: Instant, format: Instant -> string)
    requires forall w :: w in ws ==> !Accepts(w, markerTime)
    ensures NextMarker(ws, markerTime) == markerTime
    ensures Emitted(ws, markerTime, format) == []
  {
    assert Accepted(ws, markerTime) == [] by {
      AcceptedMembers(ws, markerTime);
      if Accepted(ws, markerTime) != [] {
        assert Accepted(ws, markerTime)[0] in Accepted(ws, markerTime);
      }
    }
    NextMarkerIsMax(ws, markerTime);
    EmittedRows(ws, markerTime, format);
  }

  /** No workflow accepted by a pass is accepted again from the marker that pass writes. */
  lemma AcceptedOnce(ws: seq<Workflow>, markerTime: Instant, w: Workflow)
    requires w in Accepted(ws, markerTime)
    ensures !Accepts(w, NextMarker(ws, markerTime))
  {
    NextMarkerIsMax(ws, markerTime);
    AcceptedMembers(ws, markerTime);
  }

  lemma Associative<T>(a: seq<T>, b: seq<T>, c: seq<T>)
    ensures (a + b) + c == a + (b + c)
  {
  }

  /** One iteration of the loop over `ws[i]`: the rows it adds and how `lastMod` moves. */
  lemma LoopStep(ws: seq<Workflow>, i: nat, lastMod: Instant, markerTime: Instant, format: Instant -> string)
    requires i < |ws|
    ensures ws[i..] == [ws[i]] + ws[i + 1..]
    ensures Accepts(ws[i], markerTime) ==>
      Emitted(ws[i..], markerTime, format)
        == [RowFor(ws[i], Match(ws[i].appName).value, format)] + Emitted(ws[i + 1..], markerTime, format)
    ensures !Accepts(ws[i], markerTime) ==> Emitted(ws[i..], markerTime, format) == Emitted(ws[i + 1..], markerTime, format)
    ensures Advance(lastMod, markerTime, ws[i..]) == Advance(Step(lastMod, markerTime, ws[i]), markerTime, ws[i + 1..])
  {
    assert ws[i..][0] == ws[i] && ws[i..][1..] == ws[i + 1..];
  }

  /** The CSV file a pass writes: the header, then one row per accepted workflow. */
  function CsvFile(ws: seq<Workflow>, markerTime: Instant, format: Instant -> string): (rows: seq<Row>)
    ensures |rows| == 1 + |Accepted(ws, markerTime)|
    ensures rows[0] == Header
  {
    EmittedLength(ws, markerTime, format);
    [Header] + Emitted(ws, markerTime, format)
  }

  // ---------------------------------------------------------------------
  // The pass itself
  // ---------------------------------------------------------------------

  /** The `csv.Writer`: the records handed to `Write` so far, not yet flushed. */
  class CsvWriter {
    var rows: seq<Row>

    constructor ()
      ensures rows == []
    {
      rows := [];
    }

    /** `Write` appends one record; its error is ignored by the caller. */
    method Write(row: Row)
      modifies this
      ensures rows == old(rows) + [row]
    {
      rows := rows + [row];
    }
  }

  /** What happens on disk, in order. */
  datatype Effect =
    | ArtifactCreated    // `os.Create` of the timestamped CSV file
    | MarkerWritten      // `ioutil.WriteFile` of `_marker` succeeded
    | MarkerWriteFailed  // `ioutil.WriteFile` of `_marker` failed
    | ArtifactFlushed    // the deferred `writer.Flush()` hands the rows to the file

  /** The output directory: the `_marker` file, the CSV files in creation order, and the disk effects so far. */
  class OutputDir {
    var marker: MarkerFile
    var artifacts: seq<seq<Row>>
    var effects: seq<Effect>

    constructor (marker: MarkerFile)
      ensures this.marker == marker && artifacts == [] && effects == []
    {
      this.marker := marker;
      artifacts := [];
      effects := [];
    }
  }

  /**
   * The `for range jobs.Workflows` loop: writes one row per accepted
   * workflow and returns `lastMod`, which starts at the marker.
   */
  method WriteRows(ws: seq<Workflow>, markerTime: Instant, format: Instant -> string, writer: CsvWriter)
    returns (lastMod: Instant)
    modifies writer
    ensures writer.rows == old(writer.rows) + Emitted(ws, markerTime, format)
    ensures lastMod == NextMarker(ws, markerTime)
  {
    lastMod := markerTime;
    var i := 0;
    assert ws[0..] == ws;
    ghost var start := writer.rows;
    while i < |ws|
      invariant 0 <= i <= |ws|
      invariant Advance(lastMod, markerTime, ws[i..]) == NextMarker(ws, markerTime)
      invariant writer.rows + Emitted(ws[i..], markerTime, format) == start + Emitted(ws, markerTime, format)
    {
      var w := ws[i];
      LoopStep(ws, i, lastMod, markerTime, format);
      ghost var rest := Emitted(ws[i + 1..], markerTime, format);
      if Accepts(w, markerTime) {
        if Before(lastMod, w.lastModTime) {
          lastMod := w.lastModTime;
        }
        var parts := Match(w.appName).value;
        ghost var before := writer.rows;
        writer.Write(RowFor(w, parts, format));
        Associative(before, [RowFor(w, parts, format)], rest);
      }
      i := i + 1;
    }
    assert ws[i..] == [];
  }

  /**
   * How the file-system calls of a pass turn out: whether `os.Create`
   * fails, and whether writing `_marker` fails, leaving the file in the
   * given state (the write truncates first, so a failure can leave it empty
   * or partial).
   */
  datatype DiskOutcome = DiskOutcome(createFails: bool, markerWrite: Option<MarkerFile>)

  /** `writeUpdate(jobs, outputDir, markerTime)`. */
  method WriteUpdate(jobs: Jobs, dir: OutputDir, markerTime: Instant, format: Instant -> string, disk: DiskOutcome)
    returns (err: Option<Error>)
    modifies dir
    ensures disk.createFails ==> err == Some(OutputNotCreated) && unchanged(dir)
    ensures !disk.createFails ==>
      dir.artifacts == old(dir.artifacts) + [CsvFile(jobs.workflows, markerTime, format)]
    ensures !disk.createFails && disk.markerWrite.None? ==>
      err == None &&
      dir.marker == Holds(format(NextMarker(jobs.workflows, markerTime))) &&
      dir.effects == old(dir.effects) + [ArtifactCreated, MarkerWritten, ArtifactFlushed]
    ensures !disk.createFails && disk.markerWrite.Some? ==>
      err == Some(MarkerNotWritten) &&
      dir.marker == disk.markerWrite.value &&
      dir.effects == old(dir.effects) + [ArtifactCreated, MarkerWriteFailed, ArtifactFlushed]
  {
    if disk.createFails {
      return Some(OutputNotCreated);
    }
    dir.effects := dir.effects + [ArtifactCreated];
    var writer := new CsvWriter();
    writer.Write(Header);
    assert writer.rows == [Header];
    var lastMod := WriteRows(jobs.workflows, markerTime, format, writer);

    match disk.markerWrite {
      case None =>
        dir.marker := Holds(format(lastMod));
        dir.effects := dir.effects + [MarkerWritten];
        err := None;
      case Some(left) =>
        dir.marker := left;
        dir.effects := dir.effects + [MarkerWriteFailed];
        err := Some(MarkerNotWritten);
    }
    // the deferred writer.Flush() runs as the function returns
    dir.artifacts := dir.artifacts + [writer.rows];
    dir.effects := dir.effects + [ArtifactFlushed];
  }
}
