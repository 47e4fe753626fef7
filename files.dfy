/** Step 2 of the script: keeping the CSV attachments of the data folder. */
module Files {
  import Text

  /** A file of the data folder, as listed by the API. */
  datatype FileRef = FileRef(filename: string, url: string)

  const CsvExtension := ".csv"

  /** `filename.endswith('.csv')`: case-sensitive; the name is some stem followed by
      `.csv`. */
  predicate IsCsv(filename: string)
    ensures IsCsv(filename) <==> exists stem :: filename == stem + CsvExtension
  {
    Text.EndsWith(filename, CsvExtension)
  }

  /** The list comprehension `[f for f in files if f['filename'].endswith('.csv')]`. */
  function CsvFiles(files: seq<FileRef>): (csv: seq<FileRef>)
    ensures forall f :: f in csv <==> f in files && IsCsv(f.filename)
    ensures |csv| <= |files|
  {
    if files == [] then []
    else if IsCsv(files[0].filename) then [files[0]] + CsvFiles(files[1..])
    else CsvFiles(files[1..])
  }

  /** The filter keeps the order of the listing: filtering a concatenation filters each part. */
  lemma {:induction false} CsvFilesConcat(a: seq<FileRef>, b: seq<FileRef>)
    ensures CsvFiles(a + b) == CsvFiles(a) + CsvFiles(b)
    decreases |a|
  {
    if a == [] {
      assert a + b == b;
    } else {
      assert (a + b)[1..] == a[1..] + b;
      CsvFilesConcat(a[1..], b);
    }
  }

  /** The filter drops nothing exactly when every listed file is a CSV file. */
  lemma {:induction false} CsvFilesKeepsAll(files: seq<FileRef>)
    ensures CsvFiles(files) == files <==> forall i :: 0 <= i < |files| ==> IsCsv(files[i].filename)
    decreases |files|
  {
    if files != [] {
      CsvFilesKeepsAll(files[1..]);
      if !IsCsv(files[0].filename) {
        assert |CsvFiles(files)| < |files|;
      }
      assert forall i :: 1 <= i < |files| ==> files[i] == files[1..][i - 1];
    }
  }

  /** An upper-case extension is not a CSV extension here. */
  lemma UpperCaseExtensionDropped(url: string)
    ensures CsvFiles([FileRef("report.CSV", url)]) == []
  {
    assert !IsCsv("report.CSV") by {
      assert "report.CSV"[6..] == ".CSV";
    }
  }
}
