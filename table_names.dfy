/** Deriving the database table name from a CSV file name (step 4 of the script):
    `file_name.replace('.csv', '').replace('-', '_').replace(' ', '_').lower()`, then cut to
    at most 50 characters. */
module TableNames {
  import Text
  import opened Files

  const MaxTableNameLength := 50

  /** `.replace('.csv', '')`: removes every occurrence, not only a trailing one; a name
      without `.csv` is kept as it is. */
  function StripCsv(filename: string): (r: string)
    ensures |r| <= |filename|
    ensures !Text.Contains(filename, CsvExtension) ==> r == filename
  {
    var r := Text.ReplaceAll(filename, CsvExtension, "");
    assert !Text.Contains(filename, CsvExtension) ==> r == filename by {
      if !Text.Contains(filename, CsvExtension) {
        Text.ReplaceAbsent(filename, CsvExtension, "");
      }
    }
    r
  }

  /** The name before it is shortened: no longer than the file name, and free of hyphens,
      spaces and ASCII capitals. */
  function Normalized(filename: string): (r: string)
    ensures |r| <= |filename|
    ensures forall i :: 0 <= i < |r| ==> r[i] != '-' && r[i] != ' ' && !Text.IsUpper(r[i])
  {
    var noCsv := StripCsv(filename);
    var noHyphen := Text.ReplaceAll(noCsv, "-", "_");
    var noSpace := Text.ReplaceAll(noHyphen, " ", "_");
    assert "-" == ['-'] && " " == [' '] && "_" == ['_'];
    Text.ReplaceCharAt(noCsv, '-', '_');
    Text.ReplaceCharAt(noHyphen, ' ', '_');
    Text.Lower(noSpace)
  }

  /** The table a file is loaded into: the normalized name, shortened to its first 50
      characters when it is longer than that. */
  function TableName(filename: string): (table: string)
    ensures |table| <= MaxTableNameLength
    ensures table <= Normalized(filename)
    ensures |Normalized(filename)| <= MaxTableNameLength ==> table == Normalized(filename)
    ensures |Normalized(filename)| > MaxTableNameLength ==> |table| == MaxTableNameLength
  {
    var name := Normalized(filename);
    if |name| > MaxTableNameLength then name[..MaxTableNameLength] else name
  }

  /** What normalization does to one character that survives the `.csv` removal. */
  function CleanChar(c: char): (d: char)
    ensures d != '-' && d != ' ' && !Text.IsUpper(d)
  {
    if c == '-' || c == ' ' then '_' else Text.LowerChar(c)
  }

  /** `CleanChar` applied to every character. */
  function CleanAll(s: string): (r: string)
    ensures |r| == |s|
  {
    seq(|s|, i requires 0 <= i < |s| => CleanChar(s[i]))
  }

  /** After the `.csv` removal, normalization works character by character: the hyphen and
      space replacements and the lower-casing never change the length. */
  lemma NormalizedIsCleaned(filename: string)
    ensures Normalized(filename) == CleanAll(StripCsv(filename))
  {
    var noCsv := StripCsv(filename);
    Text.ReplaceCharAt(noCsv, '-', '_');
    Text.ReplaceCharAt(Text.ReplaceAll(noCsv, "-", "_"), ' ', '_');
    assert "-" == ['-'] && " " == [' '] && "_" == ['_'];
  }

  /** A table name holds no hyphen, no space and no upper-case ASCII letter. */
  lemma TableNameCharacters(filename: string)
    ensures forall i :: 0 <= i < |TableName(filename)| ==>
              var c := TableName(filename)[i]; c != '-' && c != ' ' && !Text.IsUpper(c)
  {
    NormalizedIsCleaned(filename);
    var table := TableName(filename);
    forall i | 0 <= i < |table|
      ensures table[i] == Normalized(filename)[i]
    {
    }
  }

  /** Every `.csv` in a file name is dropped, wherever it stands: the two sides of an
      occurrence are normalized on their own and joined. */
  lemma NormalizedAcrossCsv(u: string, v: string)
    ensures Normalized(u + CsvExtension + v) == Normalized(u) + Normalized(v)
  {
    var s := u + CsvExtension + v;
    assert StripCsv(s) == StripCsv(u) + StripCsv(v) by {
      Text.ReplaceAcross(u, v, CsvExtension, "");
    }
    NormalizedIsCleaned(s);
    NormalizedIsCleaned(u);
    NormalizedIsCleaned(v);
    CleanAllConcat(StripCsv(u), StripCsv(v));
  }

  /** Cleaning works on each side of a concatenation. */
  lemma CleanAllConcat(a: string, b: string)
    ensures CleanAll(a + b) == CleanAll(a) + CleanAll(b)
  {
  }

  /** A file name `stem + ".csv"` whose stem holds no '.' and has at most 50 characters is
      loaded into the table named by the cleaned stem. */
  lemma TableNameOfStem(stem: string)
    requires '.' !in stem
    requires |stem| <= MaxTableNameLength
    ensures TableName(stem + CsvExtension) == CleanAll(stem)
  {
    Text.AbsentFirstChar(stem, CsvExtension);
    NormalizedAcrossCsv(stem, "");
    assert stem + CsvExtension + "" == stem + CsvExtension;
    Text.ReplaceAbsent(stem, CsvExtension, "");
    NormalizedIsCleaned(stem);
  }

  lemma CleanExample()
    ensures CleanAll("My Report-2024") == "my_report_2024"
  {
  }

  /** The worked example: "My Report-2024.csv" is loaded into table "my_report_2024". */
  lemma Example()
    ensures TableName("My Report-2024.csv") == "my_report_2024"
  {
    var stem := "My Report-2024";
    assert stem + CsvExtension == "My Report-2024.csv";
    CleanExample();
    TableNameOfStem(stem);
  }

  /** `replace` is a single pass: removing ".csv" from "..csvcsv" leaves ".csv". */
  lemma SinglePass()
    ensures StripCsv("..csvcsv") == ".csv"
  {
    Text.ReplaceAcross(".", "csv", CsvExtension, "");
    assert "." + CsvExtension + "csv" == "..csvcsv";
    Text.AbsentFirstChar("csv", CsvExtension);
    Text.ReplaceAbsent("csv", CsvExtension, "");
    Text.AbsentFirstChar(".", CsvExtension[1..]);
    Text.ReplaceAbsent(".", CsvExtension, "");
  }

  lemma CleanCollide()
    ensures CleanAll("a-b") == "a_b"
    ensures CleanAll("a b") == "a_b"
    ensures CleanAll("A_B") == "a_b"
  {
  }

  /** Distinct file names can share a table: "a-b.csv", "a b.csv" and "A_B.csv" all load
      into "a_b", so the later file replaces the earlier one. */
  lemma NamesCollide()
    ensures TableName("a-b.csv") == TableName("a b.csv") == TableName("A_B.csv") == "a_b"
  {
    var hyphen, space, upper := "a-b", "a b", "A_B";
    assert hyphen + CsvExtension == "a-b.csv";
    assert space + CsvExtension == "a b.csv";
    assert upper + CsvExtension == "A_B.csv";
    CleanCollide();
    TableNameOfStem(hyphen);
    TableNameOfStem(space);
    TableNameOfStem(upper);
  }
}
