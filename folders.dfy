/** Step 1 of the script: finding the course folder named "data". */
module Folders {
  import opened Wrappers
  import Text

  /** A folder of the course, as listed by the API. */
  datatype Folder = Folder(id: int, name: string)

  const DataFolderName := "data"

  /** `folder['name'].lower() == 'data'`: only a four-letter name can match, and "data"
      itself does. */
  predicate IsDataFolder(f: Folder)
    ensures IsDataFolder(f) ==> |f.name| == |DataFolderName|
    ensures f.name == DataFolderName ==> IsDataFolder(f)
  {
    assert f.name == DataFolderName ==> Text.Lower(f.name) == DataFolderName by {
      if f.name == DataFolderName {
        assert forall i :: 0 <= i < |f.name| ==> !Text.IsUpper(f.name[i]);
      }
    }
    Text.Lower(f.name) == DataFolderName
  }

  /** The folder the script settles on: the first data folder of the listing, if any. */
  function FirstDataFolder(folders: seq<Folder>): (r: Option<Folder>)
    ensures r.None? <==> forall i :: 0 <= i < |folders| ==> !IsDataFolder(folders[i])
    ensures forall i ::
              (0 <= i < |folders| && IsDataFolder(folders[i]) &&
               forall j :: 0 <= j < i ==> !IsDataFolder(folders[j]))
              ==> r == Some(folders[i])
  {
    if folders == [] then None
    else if IsDataFolder(folders[0]) then Some(folders[0])
    else
      var r := FirstDataFolder(folders[1..]);
      assert forall i :: 1 <= i < |folders| ==> folders[i] == folders[1..][i - 1];
      r
  }

  /** The names listed in the diagnostic when no data folder exists. */
  function FolderNames(folders: seq<Folder>): (names: seq<string>)
    ensures |names| == |folders|
    ensures forall i :: 0 <= i < |folders| ==> names[i] == folders[i].name
  {
    seq(|folders|, i requires 0 <= i < |folders| => folders[i].name)
  }

  /** The search loop: walk the listing, stop at the first folder whose lower-cased name is
      "data". */
  method FindDataFolder(folders: seq<Folder>) returns (dataFolder: Option<Folder>)
    ensures dataFolder == FirstDataFolder(folders)
  {
    dataFolder := None;
    var i := 0;
    while i < |folders|
      invariant 0 <= i <= |folders|
      invariant dataFolder.None?
      invariant forall j :: 0 <= j < i ==> !IsDataFolder(folders[j])
    {
      if IsDataFolder(folders[i]) {
        dataFolder := Some(folders[i]);
        break;
      }
      i := i + 1;
    }
  }

  /** The test ignores the case of the letters, and nothing but the exact name matches. */
  lemma DataFolderNames(id: int)
    ensures IsDataFolder(Folder(id, "Data")) && IsDataFolder(Folder(id, "DATA"))
    ensures !IsDataFolder(Folder(id, "data2")) && !IsDataFolder(Folder(id, "Raw Data"))
  {
  }
}
