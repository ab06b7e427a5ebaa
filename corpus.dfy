/** The per-file driver: one row per `.txt` entry of the listing, built from
    the header loop and the body statistics, appended in listing order. */
module Corpus {
  import opened Wrappers
  import opened Header
  import opened Body

  /** One row of the collected data. `header` holds the metadata fields that
      were found; `truthTwice` is present only when set. */
  datatype Record = Record(
    filename: string,
    header: map<Field, string>,
    truthTwice: Option<bool>,
    dialogueInstances: nat,
    bookLength: nat)

  /** The row built for one file with decoded text `raw`; absent when a body
      marker is missing, where the notebook raises. */
  function RecordOf(filename: string, raw: string): (r: Option<Record>)
    ensures r.Some? ==> r.value.filename == filename
    ensures r.Some? ==> r.value.dialogueInstances <= r.value.bookLength <= |raw|
    ensures r.Some? ==> r.value.truthTwice != Some(false)
  {
    match ExtractBody(raw)
    case None => None
    case Some(body) =>
      Some(Record(filename, HeaderFields(HeaderWindow(raw)), TruthTwice(body), DialogueInstances(body), |body|))
  }

  /** A row is built exactly when the text has both a START and an END marker. */
  lemma RowNeedsBothMarkers(filename: string, raw: string)
    ensures RecordOf(filename, raw).None? <==>
            (forall q :: !MarkerAt(raw, "START", q)) || (forall q :: !MarkerAt(raw, "END", q))
  {
  }

  /** The statistics of a row are those of the text between the markers, and
      its metadata are the header loop's fields. */
  lemma RecordContents(filename: string, raw: string)
    requires RecordOf(filename, raw).Some?
    ensures var r := RecordOf(filename, raw).value;
            var body := ExtractBody(raw).value;
            r.bookLength == |body| &&
            r.dialogueInstances == multiset(body)[CloseQuote] &&
            (r.truthTwice == Some(true) <==> TruthCount(body) > 2) &&
            r.header == HeaderFields(HeaderWindow(raw))
  {
  }

  /** The loop body for one file: the header loop over the first forty lines,
      then the body slice and its statistics. */
  method BuildRow(filename: string, raw: string) returns (r: Option<Record>)
    ensures r == RecordOf(filename, raw)
  {
    var row := ReadHeader(raw);
    var body := ExtractBody(raw);
    if body.None? {
      return None;
    }
    var text := body.value;
    r := Some(Record(filename, row, TruthTwice(text), DialogueInstances(text), |text|));
  }

  /** `filename.endswith('.txt')`. */
  predicate IsText(name: string)
  {
    |name| >= 4 && name[|name| - 4..] == ".txt"
  }

  /** A name is kept exactly when it is some name followed by `.txt`. */
  lemma IsTextEndsWith(name: string)
    ensures IsText(name) <==> exists stem :: stem + ".txt" == name
  {
    if IsText(name) {
      var stem := name[..|name| - 4];
      assert stem + ".txt" == name;
    }
    if exists stem :: stem + ".txt" == name {
      var stem :| stem + ".txt" == name;
      assert name[|name| - 4..] == ".txt";
    }
  }

  /** The `.txt` entries of a listing of (name, decoded text) pairs, in order. */
  function TextFiles(listing: seq<(string, string)>): (fs: seq<(string, string)>)
    ensures |fs| <= |listing|
    ensures forall i :: 0 <= i < |fs| ==> IsText(fs[i].0) && fs[i] in listing
  {
    if listing == [] then []
    else
      var last := listing[|listing| - 1];
      var init := TextFiles(listing[..|listing| - 1]);
      assert forall i :: 0 <= i < |init| ==> init[i] in listing[..|listing| - 1];
      init + (if IsText(last.0) then [last] else [])
  }

  /** Every `.txt` entry of the listing is kept by the filter. */
  lemma {:induction false} TextFilesComplete(listing: seq<(string, string)>, i: nat)
    requires i < |listing| && IsText(listing[i].0)
    ensures listing[i] in TextFiles(listing)
    decreases |listing|
  {
    var init := listing[..|listing| - 1];
    if i < |listing| - 1 {
      assert init[i] == listing[i];
      TextFilesComplete(init, i);
    }
  }

  /** Filtering one more entry of the listing. */
  lemma TextFilesSnoc(listing: seq<(string, string)>, k: nat)
    requires k < |listing|
    ensures TextFiles(listing[..k + 1]) ==
            TextFiles(listing[..k]) + (if IsText(listing[k].0) then [listing[k]] else [])
  {
    assert listing[..k + 1][..k] == listing[..k];
  }

  /** Filtering a longer prefix of the listing extends the filtered prefix. */
  lemma {:induction false} TextFilesPrefix(listing: seq<(string, string)>, k: nat)
    requires k <= |listing|
    ensures TextFiles(listing[..k]) <= TextFiles(listing)
    decreases |listing| - k
  {
    if k < |listing| {
      TextFilesPrefix(listing, k + 1);
      TextFilesSnoc(listing, k);
    } else {
      assert listing[..k] == listing;
    }
  }

  /** A `.txt` entry whose row cannot be built is one of the filtered files. */
  lemma FailingFileListed(listing: seq<(string, string)>, k: nat)
    requires k < |listing| && IsText(listing[k].0)
    ensures var fs := TextFiles(listing);
            |TextFiles(listing[..k])| < |fs| && fs[|TextFiles(listing[..k])|] == listing[k]
  {
    TextFilesSnoc(listing, k);
    TextFilesPrefix(listing, k + 1);
  }

  /** `row` is the row built for the listing entry `e`. */
  ghost predicate RowOf(row: Record, e: (string, string))
  {
    Some(row) == RecordOf(e.0, e.1)
  }

  /** `rows` are the rows built for `files`, one for one. */
  ghost predicate RowsFor(rows: seq<Record>, files: seq<(string, string)>)
  {
    |rows| == |files| && forall i :: 0 <= i < |rows| ==> RowOf(rows[i], files[i])
  }

  /** Appending the row of one more file keeps rows and files in step. */
  lemma AppendRow(rows: seq<Record>, files: seq<(string, string)>, r: Record, e: (string, string))
    requires RowsFor(rows, files) && RowOf(r, e)
    ensures RowsFor(rows + [r], files + [e])
  {
    var rows', files' := rows + [r], files + [e];
    forall i | 0 <= i < |rows'| ensures RowOf(rows'[i], files'[i]) {
      if i < |rows| {
        assert rows'[i] == rows[i];
        assert files'[i] == files[i];
        assert RowOf(rows[i], files[i]);
      } else {
        assert rows'[i] == r && files'[i] == e;
      }
    }
  }

  /** Rows exist for every file that has rows built for it. */
  lemma RowsExist(rows: seq<Record>, files: seq<(string, string)>)
    requires RowsFor(rows, files)
    ensures forall i :: 0 <= i < |files| ==> RecordOf(files[i].0, files[i].1).Some?
  {
    forall i | 0 <= i < |files| ensures RecordOf(files[i].0, files[i].1).Some? {
      assert RowOf(rows[i], files[i]);
    }
  }

  /** The driver loop: each `.txt` entry in listing order yields one row,
      appended to the data; a file with a missing marker stops the run. */
  method CollectRecords(listing: seq<(string, string)>) returns (data: Option<seq<Record>>)
    ensures data.Some? <==> forall i :: 0 <= i < |TextFiles(listing)| ==>
                              RecordOf(TextFiles(listing)[i].0, TextFiles(listing)[i].1).Some?
    ensures data.Some? ==> |data.value| == |TextFiles(listing)|
    ensures data.Some? ==> forall i :: 0 <= i < |data.value| ==>
                             Some(data.value[i]) == RecordOf(TextFiles(listing)[i].0, TextFiles(listing)[i].1)
  {
    var acc: seq<Record> := [];
    ghost var files: seq<(string, string)> := [];
    for k := 0 to |listing|
      invariant files == TextFiles(listing[..k])
      invariant RowsFor(acc, files)
    {
      var entry := listing[k];
      TextFilesSnoc(listing, k);
      if IsText(entry.0) {
        var row := BuildRow(entry.0, entry.1);
        if row.None? {
          FailingFileListed(listing, k);
          return None;
        }
        AppendRow(acc, files, row.value, entry);
        acc := acc + [row.value];
        files := files + [entry];
      }
    }
    assert listing[..|listing|] == listing;
    RowsExist(acc, files);
    data := Some(acc);
  }
}
