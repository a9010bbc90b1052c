/** The per-file pipeline of the converter: load by extension, the optional
    cleaning steps in their fixed order (duplicates, missing numbers,
    whitespace), the column selection, and the download offered. */
module Pipeline {
  import opened Wrappers
  import opened Tables
  import opened FileNames
  import Dedupe
  import MeanFill
  import Whitespace
  import Selection
  import Frames

  /** An uploaded file: its name and the table the matching pandas reader
      parses from its bytes. */
  datatype Upload = Upload(name: string, contents: Table)

  /** The current state of one file's widgets: the three checkboxes, the
      multiselect and the radio choice. */
  datatype Request = Request(
    dropDuplicates: bool,
    fillMissing: bool,
    cleanWhitespace: bool,
    selected: seq<string>,
    formatChoice: string)

  datatype Job = Job(upload: Upload, request: Request)

  /** What the download button offers: the name, the MIME type, the format
      the table is serialised in, and the table itself. */
  datatype Download = Download(fileName: string, mime: string, format: FileKind, table: Table)

  /** `load_file`: a table for a ".csv" or ".xlsx" name, none otherwise. */
  function Load(u: Upload): (r: Option<Table>)
    ensures r.None? <==> Classify(u.name) == Unsupported
    ensures r.Some? ==> r.value == u.contents
  {
    if Classify(u.name) == Unsupported then None else Some(u.contents)
  }

  /** The enabled cleaning steps, in the script's order. */
  function Cleaned(t: Table, req: Request): (r: Table)
    requires WellFormed(t)
    ensures WellFormed(r)
  {
    var t1 := if req.dropDuplicates then Dedupe.DropDuplicates(t) else t;
    var t2 := if req.fillMissing then MeanFill.FillMissing(t1) else t1;
    if req.cleanWhitespace then Whitespace.CleanWhitespace(t2) else t2
  }

  /** The upload is a rectangular table and, if it is loaded at all, the
      selection names columns of the cleaned table (the multiselect offers
      exactly those). */
  predicate Ready(j: Job) {
    && WellFormed(j.upload.contents)
    && (Classify(j.upload.name) != Unsupported ==>
          Selection.SelectionValid(Cleaned(j.upload.contents, j.request), j.request.selected))
  }

  /** One file through the pipeline. An unsupported file offers nothing; any
      other file offers its cleaned and projected table under the original
      base name with the chosen suffix, and that name classifies as the chosen
      format again. */
  function Process(j: Job): (d: Option<Download>)
    requires Ready(j)
    ensures d.None? <==> Classify(j.upload.name) == Unsupported
    ensures d.Some? ==>
      && d.value.format == OutputFormat(j.request.formatChoice)
      && d.value.mime == Mime(d.value.format)
      && Classify(d.value.fileName) == d.value.format
      && BaseName(d.value.fileName) == BaseName(j.upload.name)
      && d.value.fileName == OutputName(j.upload.name, d.value.format)
      && d.value.table == Selection.SelectColumns(Cleaned(j.upload.contents, j.request), j.request.selected)
  {
    match Load(j.upload)
    case None => None
    case Some(t) =>
      var df := Selection.SelectColumns(Cleaned(t, j.request), j.request.selected);
      var fmt := OutputFormat(j.request.formatChoice);
      Some(Download(OutputName(j.upload.name, fmt), Mime(fmt), fmt, df))
  }

  /** The body of the loop over uploaded files, on a frame updated in place. */
  method ProcessFile(j: Job) returns (d: Option<Download>)
    requires Ready(j)
    ensures d == Process(j)
  {
    var loaded := Load(j.upload);
    if loaded.None? {
      return None;
    }
    var req := j.request;
    var df := new Frames.Frame(loaded.value);
    if req.dropDuplicates {
      df.DropDuplicates();
    }
    if req.fillMissing {
      df.FillMissing();
    }
    if req.cleanWhitespace {
      df.CleanWhitespace();
    }
    df.SelectColumns(req.selected);
    var fmt := OutputFormat(req.formatChoice);
    d := Some(Download(OutputName(j.upload.name, fmt), Mime(fmt), fmt, df.Value()));
  }

  /** What the first `m` jobs of a batch yield: one result per job, in
      upload order. */
  ghost function Processed(jobs: seq<Job>, m: nat): (rs: seq<Option<Download>>)
    requires m <= |jobs|
    requires forall k :: 0 <= k < |jobs| ==> Ready(jobs[k])
    ensures |rs| == m
  {
    if m == 0 then [] else Processed(jobs, m - 1) + [Process(jobs[m - 1])]
  }

  /** The result at position `i` of a batch is that job's own result: no
      file's outcome depends on the files before or after it. */
  lemma {:induction false} ProcessedAt(jobs: seq<Job>, m: nat, i: nat)
    requires m <= |jobs|
    requires forall k :: 0 <= k < |jobs| ==> Ready(jobs[k])
    requires i < m
    ensures Processed(jobs, m)[i] == Process(jobs[i])
  {
    if i < m - 1 {
      ProcessedAt(jobs, m - 1, i);
    }
  }

  /** `for file in files`: every file is processed on its own, an unsupported
      one is skipped and the loop goes on with the next. */
  method ProcessUploads(jobs: seq<Job>) returns (results: seq<Option<Download>>)
    requires forall i :: 0 <= i < |jobs| ==> Ready(jobs[i])
    ensures results == Processed(jobs, |jobs|)
  {
    results := [];
    for i := 0 to |jobs|
      invariant results == Processed(jobs, i)
    {
      var d := ProcessFile(jobs[i]);
      results := results + [d];
    }
  }

  /** The downloads offered for a batch, in upload order. */
  function Offered(results: seq<Option<Download>>): (ds: seq<Download>)
    ensures |ds| <= |results|
    ensures forall d :: d in ds <==> Some(d) in results
  {
    if results == [] then []
    else
      var n := |results| - 1;
      assert results == results[..n] + [results[n]];
      Offered(results[..n]) + (if results[n].Some? then [results[n].value] else [])
  }

  /** A single result offers its download, or nothing for a skipped file. */
  lemma OfferedOne(r: Option<Download>)
    ensures r.Some? ==> Offered([r]) == [r.value]
    ensures r.None? ==> Offered([r]) == []
  {
    assert [r][..0] == [];
  }

  /** The downloads of two consecutive parts of a batch are those of the
      first part followed by those of the second: one per supported file, in
      upload order. */
  lemma {:induction false} OfferedAppend(a: seq<Option<Download>>, b: seq<Option<Download>>)
    ensures Offered(a + b) == Offered(a) + Offered(b)
  {
    if b == [] {
      assert a + b == a;
    } else {
      var n := |b| - 1;
      var ab, pre, last := a + b, b[..n], b[n];
      var tail := if last.Some? then [last.value] else [];
      assert ab[..|ab| - 1] == a + pre && ab[|ab| - 1] == last;
      assert Offered(ab) == Offered(a + pre) + tail;
      assert b[..|b| - 1] == pre;
      assert Offered(b) == Offered(pre) + tail;
      OfferedAppend(a, pre);
    }
  }
}
