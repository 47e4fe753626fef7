/** Step 4 of the script: the loop over the CSV files. Downloading, parsing and writing one
    file is a single step whose success the caller supplies (`loads`); a failing file is
    counted and the loop goes on. */
module Loader {
  import Files
  import TableNames
  import opened Requests

  /** What the loop reports for one file: its table and whether it was loaded. */
  datatype FileResult = FileResult(filename: string, table: string, loaded: bool)

  /** The report for one file: the table its name maps to, and the supplied outcome. */
  function Attempt(file: Files.FileRef, loads: Files.FileRef -> bool): (r: FileResult)
    ensures r.filename == file.filename && r.loaded == loads(file)
    ensures r.table == TableNames.TableName(file.filename)
    ensures |r.table| <= TableNames.MaxTableNameLength
    ensures forall i :: 0 <= i < |r.table| ==> r.table[i] != '-' && r.table[i] != ' '
  {
    TableNames.TableNameCharacters(file.filename);
    FileResult(file.filename, TableNames.TableName(file.filename), loads(file))
  }

  /** The files that load. */
  function Loaded(files: seq<Files.FileRef>, loads: Files.FileRef -> bool): (n: nat)
    ensures n <= |files|
    ensures n == 0 <==> forall j :: 0 <= j < |files| ==> !loads(files[j])
  {
    if files == [] then 0
    else (if loads(files[0]) then 1 else 0) + Loaded(files[1..], loads)
  }

  /** The files that fail. */
  function Failed(files: seq<Files.FileRef>, loads: Files.FileRef -> bool): (n: nat)
    ensures n <= |files|
    ensures n == 0 <==> forall j :: 0 <= j < |files| ==> loads(files[j])
  {
    if files == [] then 0
    else (if loads(files[0]) then 0 else 1) + Failed(files[1..], loads)
  }

  /** Every file is counted once: as loaded or as failed. */
  lemma {:induction false} CountsConserve(files: seq<Files.FileRef>, loads: Files.FileRef -> bool)
    ensures Loaded(files, loads) + Failed(files, loads) == |files|
    decreases |files|
  {
    if files != [] {
      CountsConserve(files[1..], loads);
    }
  }

  /** Counting distributes over concatenation. */
  lemma {:induction false} CountsConcat(a: seq<Files.FileRef>, b: seq<Files.FileRef>, loads: Files.FileRef -> bool)
    ensures Loaded(a + b, loads) == Loaded(a, loads) + Loaded(b, loads)
    ensures Failed(a + b, loads) == Failed(a, loads) + Failed(b, loads)
    decreases |a|
  {
    if a == [] {
      assert a + b == b;
    } else {
      assert (a + b)[1..] == a[1..] + b;
      CountsConcat(a[1..], b, loads);
    }
  }

  /** One failing file among N costs exactly that file: the summary reports N - 1 successes
      and 1 failure. */
  lemma {:induction false} OneFailure(files: seq<Files.FileRef>, loads: Files.FileRef -> bool, k: nat)
    requires k < |files| && !loads(files[k])
    requires forall j :: 0 <= j < |files| && j != k ==> loads(files[j])
    ensures Loaded(files, loads) == |files| - 1
    ensures Failed(files, loads) == 1
  {
    AllLoad(files[..k], loads);
    AllLoad(files[k + 1..], loads);
    assert files == files[..k] + [files[k]] + files[k + 1..];
    CountsConcat(files[..k] + [files[k]], files[k + 1..], loads);
    CountsConcat(files[..k], [files[k]], loads);
    CountsConserve(files[..k], loads);
    CountsConserve(files[k + 1..], loads);
  }

  /** When every file loads, nothing fails. */
  lemma {:induction false} AllLoad(files: seq<Files.FileRef>, loads: Files.FileRef -> bool)
    requires forall j :: 0 <= j < |files| ==> loads(files[j])
    ensures Loaded(files, loads) == |files| && Failed(files, loads) == 0
    decreases |files|
  {
    if files != [] {
      AllLoad(files[1..], loads);
    }
  }

  /** The report of each file, in order. */
  function Reports(files: seq<Files.FileRef>, loads: Files.FileRef -> bool): (reports: seq<FileResult>)
    ensures |reports| == |files|
    ensures forall i :: 0 <= i < |files| ==> reports[i] == Attempt(files[i], loads)
  {
    seq(|files|, i requires 0 <= i < |files| => Attempt(files[i], loads))
  }

  /** The download request of each file, in order. */
  function Downloads(files: seq<Files.FileRef>): (requests: seq<Request>)
    ensures |requests| == |files|
    ensures forall i :: 0 <= i < |files| ==> requests[i] == GetFile(files[i].url)
  {
    seq(|files|, i requires 0 <= i < |files| => GetFile(files[i].url))
  }

  /** Reporting one more file appends its report. */
  lemma ReportsAppend(files: seq<Files.FileRef>, file: Files.FileRef, loads: Files.FileRef -> bool)
    ensures Reports(files + [file], loads) == Reports(files, loads) + [Attempt(file, loads)]
  {
    var longer := Reports(files + [file], loads);
    assert forall k :: 0 <= k < |files| ==> longer[k] == Reports(files, loads)[k];
  }

  /** Downloading one more file appends its request. */
  lemma DownloadsAppend(files: seq<Files.FileRef>, file: Files.FileRef)
    ensures Downloads(files + [file]) == Downloads(files) + [GetFile(file.url)]
  {
    var longer := Downloads(files + [file]);
    assert forall k :: 0 <= k < |files| ==> longer[k] == Downloads(files)[k];
  }

  /** Counting, reporting and downloading one more file of a list. */
  lemma Step(files: seq<Files.FileRef>, i: nat, loads: Files.FileRef -> bool)
    requires i < |files|
    ensures Loaded(files[..i + 1], loads) == Loaded(files[..i], loads) + (if loads(files[i]) then 1 else 0)
    ensures Failed(files[..i + 1], loads) == Failed(files[..i], loads) + (if loads(files[i]) then 0 else 1)
    ensures Reports(files[..i + 1], loads) == Reports(files[..i], loads) + [Attempt(files[i], loads)]
    ensures Downloads(files[..i + 1]) == Downloads(files[..i]) + [GetFile(files[i].url)]
  {
    var front, last := files[..i], [files[i]];
    assert files[..i + 1] == front + last;
    CountsConcat(front, last, loads);
    assert Loaded(last, loads) == (if loads(files[i]) then 1 else 0) by {
      assert last[1..] == [];
    }
    assert Failed(last, loads) == (if loads(files[i]) then 0 else 1) by {
      assert last[1..] == [];
    }
    ReportsAppend(front, files[i], loads);
    DownloadsAppend(front, files[i]);
  }

  /** The loop over the CSV files: each file is named, downloaded and loaded on its own; the
      outcome of one file never keeps a later file from being attempted. */
  method LoadAll(csvFiles: seq<Files.FileRef>, loads: Files.FileRef -> bool)
    returns (successCount: nat, errorCount: nat, results: seq<FileResult>, downloads: seq<Request>)
    ensures successCount == Loaded(csvFiles, loads)
    ensures errorCount == Failed(csvFiles, loads)
    ensures successCount + errorCount == |csvFiles|
    ensures results == Reports(csvFiles, loads)
    ensures downloads == Downloads(csvFiles)
  {
    successCount, errorCount := 0, 0;
    results, downloads := [], [];
    for i := 0 to |csvFiles|
      invariant successCount == Loaded(csvFiles[..i], loads)
      invariant errorCount == Failed(csvFiles[..i], loads)
      invariant results == Reports(csvFiles[..i], loads)
      invariant downloads == Downloads(csvFiles[..i])
    {
      var file := csvFiles[i];
      var table := TableNames.TableName(file.filename);
      downloads := downloads + [GetFile(file.url)];
      var loaded := loads(file);
      if loaded {
        successCount := successCount + 1;
      } else {
        errorCount := errorCount + 1;
      }
      results := results + [FileResult(file.filename, table, loaded)];
      Step(csvFiles, i, loads);
    }
    assert csvFiles[..|csvFiles|] == csvFiles;
    CountsConserve(csvFiles, loads);
  }
}
