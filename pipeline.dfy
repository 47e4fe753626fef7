/** The whole script, top to bottom: find the data folder, list its CSV files, read the
    connection setting, then load every file. The answers of the API and the outcome of each
    file's load are inputs; the requests sent to the API are recorded in order. */
module Pipeline {
  import opened Wrappers
  import opened Requests
  import Folders
  import Files
  import Connection
  import Loader

  /** The failures that end the run with `exit(1)`. */
  datatype FatalError =
    | FolderFetchFailed                          // the folder listing could not be fetched
    | DataFolderNotFound(available: seq<string>) // no folder is named "data"
    | FileFetchFailed                            // the file listing could not be fetched
    | ConnectionFailed(cause: Connection.ConnectionError) // the connection setting is unusable

  /** How a run ends. */
  datatype Outcome =
    | Aborted(error: FatalError)
    | NoCsvFiles // the data folder holds no CSV file: a notice and `exit(0)`
    | Completed(connection: string, successCount: nat, errorCount: nat, results: seq<Loader.FileResult>)

  /** The process exit status: only a fatal error gives a non-zero status; failed files do
      not. */
  function ExitCode(o: Outcome): (code: int)
    ensures code == 0 || code == 1
    ensures code == 1 <==> o.Aborted?
  {
    match o
    case Aborted(_) => 1
    case NoCsvFiles => 0
    case Completed(_, _, _, _) => 0
  }

  /** Steps 3 and 4 for a non-empty list of CSV files: read the connection setting, then
      load every file. `downloads` are the requests sent, in order. */
  method ConnectAndLoad(csv: seq<Files.FileRef>, setting: Option<string>, loads: Files.FileRef -> bool)
    returns (outcome: Outcome, downloads: seq<Request>)
    ensures var parsed := Connection.Parse(setting);
            && (parsed.Failure? ==> outcome == Aborted(ConnectionFailed(parsed.error)) && downloads == [])
            && (parsed.Success? ==>
                  && outcome.Completed?
                  && outcome.connection == Connection.OdbcConnectionString(parsed.value)
                  && outcome.successCount == Loader.Loaded(csv, loads)
                  && outcome.errorCount == Loader.Failed(csv, loads)
                  && outcome.successCount + outcome.errorCount == |csv|
                  && outcome.results == Loader.Reports(csv, loads)
                  && downloads == Loader.Downloads(csv))
  {
    var parsed := Connection.Parse(setting);
    if parsed.Failure? {
      outcome := Aborted(ConnectionFailed(parsed.error));
      downloads := [];
      return;
    }
    var connection := Connection.OdbcConnectionString(parsed.value);
    var successCount, errorCount, results;
    successCount, errorCount, results, downloads := Loader.LoadAll(csv, loads);
    outcome := Completed(connection, successCount, errorCount, results);
  }

  /** Steps 2 to 4, once the data folder `id` is known: list its files, keep the CSV files,
      stop when there is none, then connect and load. `requests` are the requests sent, in
      order. */
  method LoadDataFolder(
    id: int,
    listFiles: int -> Option<seq<Files.FileRef>>,
    setting: Option<string>,
    loads: Files.FileRef -> bool)
    returns (outcome: Outcome, requests: seq<Request>)
    ensures |requests| >= 1 && requests[0] == GetFiles(id)
    ensures listFiles(id).None? ==> outcome == Aborted(FileFetchFailed) && requests == [GetFiles(id)]
    ensures listFiles(id).Some? ==>
              var csv := Files.CsvFiles(listFiles(id).value);
              var parsed := Connection.Parse(setting);
              && (csv == [] ==> outcome == NoCsvFiles && requests == [GetFiles(id)])
              && (csv != [] && parsed.Failure? ==>
                    outcome == Aborted(ConnectionFailed(parsed.error)) && requests == [GetFiles(id)])
              && (csv != [] && parsed.Success? ==>
                    && outcome.Completed?
                    && outcome.connection == Connection.OdbcConnectionString(parsed.value)
                    && outcome.successCount == Loader.Loaded(csv, loads)
                    && outcome.errorCount == Loader.Failed(csv, loads)
                    && outcome.successCount + outcome.errorCount == |csv|
                    && outcome.results == Loader.Reports(csv, loads)
                    && requests[1..] == Loader.Downloads(csv))
  {
    requests := [GetFiles(id)];
    var listing := listFiles(id);
    if listing.None? {
      outcome := Aborted(FileFetchFailed);
      return;
    }
    var csvFiles := Files.CsvFiles(listing.value);
    if csvFiles == [] {
      outcome := NoCsvFiles;
      return;
    }
    var downloads;
    outcome, downloads := ConnectAndLoad(csvFiles, setting, loads);
    requests := requests + downloads;
  }

  /** A run. `folders` is the folder listing (`None` when the request or its decoding
      fails), `listFiles` the file listing of a folder (likewise), `setting` the
      SQL_CONNECTION_STRING variable, and `loads` whether a file's download, parse and table
      write succeed. */
  method Run(
    folders: Option<seq<Folders.Folder>>,
    listFiles: int -> Option<seq<Files.FileRef>>,
    setting: Option<string>,
    loads: Files.FileRef -> bool)
    returns (outcome: Outcome, requests: seq<Request>)
    ensures |requests| >= 1 && requests[0] == GetFolders
    ensures folders.None? ==> outcome == Aborted(FolderFetchFailed) && requests == [GetFolders]
    ensures folders.Some? && Folders.FirstDataFolder(folders.value).None? ==>
              && outcome == Aborted(DataFolderNotFound(Folders.FolderNames(folders.value)))
              && requests == [GetFolders]
    ensures folders.Some? && Folders.FirstDataFolder(folders.value).Some? ==>
              var id := Folders.FirstDataFolder(folders.value).value.id;
              && |requests| >= 2 && requests[1] == GetFiles(id)
              && (listFiles(id).None? ==> outcome == Aborted(FileFetchFailed) && |requests| == 2)
              && (listFiles(id).Some? ==>
                    var csv := Files.CsvFiles(listFiles(id).value);
                    var parsed := Connection.Parse(setting);
                    && (csv == [] ==> outcome == NoCsvFiles && |requests| == 2)
                    && (csv != [] && parsed.Failure? ==>
                          outcome == Aborted(ConnectionFailed(parsed.error)) && |requests| == 2)
                    && (csv != [] && parsed.Success? ==>
                          && outcome.Completed?
                          && outcome.connection == Connection.OdbcConnectionString(parsed.value)
                          && outcome.successCount == Loader.Loaded(csv, loads)
                          && outcome.errorCount == Loader.Failed(csv, loads)
                          && outcome.successCount + outcome.errorCount == |csv|
                          && outcome.results == Loader.Reports(csv, loads)
                          && requests[2..] == Loader.Downloads(csv)))
    ensures outcome.Aborted? || outcome.NoCsvFiles? ==> forall r :: r in requests ==> !r.GetFile?
  {
    requests := [GetFolders];
    if folders.None? {
      outcome := Aborted(FolderFetchFailed);
      return;
    }
    var dataFolder := Folders.FindDataFolder(folders.value);
    if dataFolder.None? {
      outcome := Aborted(DataFolderNotFound(Folders.FolderNames(folders.value)));
      return;
    }
    var later;
    outcome, later := LoadDataFolder(dataFolder.value.id, listFiles, setting, loads);
    requests := requests + later;
    assert requests[1..] == later;
  }
}
