/** File-type detection from the uploaded name (`load_file`) and the name and
    MIME type of the converted download. */
module FileNames {
  import opened Text

  /** The closed variant the extension is resolved to once, at load time. */
  datatype FileKind = Csv | Xlsx | Unsupported

  /** Position of the last '.' in `s`, or -1 when `s` has none. */
  function LastDot(s: string): (d: int)
    ensures -1 <= d < |s|
    ensures d >= 0 ==> s[d] == '.'
    ensures forall i :: d < i < |s| ==> s[i] != '.'
  {
    LastDotBefore(s, |s|)
  }

  /** Position of the last '.' among the first `j` characters of `s`, or -1. */
  function LastDotBefore(s: string, j: nat): (d: int)
    requires j <= |s|
    ensures -1 <= d < j
    ensures d >= 0 ==> s[d] == '.'
    ensures forall i :: d < i < j ==> s[i] != '.'
  {
    if j == 0 then -1
    else if s[j - 1] == '.' then j - 1
    else LastDotBefore(s, j - 1)
  }

  /** `name.split('.')[-1]`: the longest suffix of `name` without a '.'; the
      whole name when it has no '.'. */
  function Extension(name: string): (ext: string)
    ensures '.' !in ext
    ensures |ext| <= |name|
    ensures forall i :: 0 <= i < |ext| ==> ext[i] == name[|name| - |ext| + i]
    ensures |ext| < |name| ==> name[|name| - |ext| - 1] == '.'
  {
    var d := LastDot(name);
    seq(|name| - d - 1, i requires 0 <= i < |name| - d - 1 => name[d + 1 + i])
  }

  /** `name.rsplit('.', 1)[0]`: what comes before the last '.'; the whole name
      when it has no '.'. */
  function BaseName(name: string): (base: string)
    ensures |base| <= |name| && base == name[..|base|]
    ensures LastDot(name) >= 0 ==> name == base + "." + Extension(name)
    ensures LastDot(name) < 0 ==> base == name == Extension(name)
  {
    var d := LastDot(name);
    if d < 0 then
      assert Extension(name) == name;
      name
    else
      assert name == name[..d] + "." + Extension(name);
      name[..d]
  }

  /** `load_file`'s dispatch: the lowercased extension selects the reader. */
  function Classify(name: string): (k: FileKind)
    ensures k == Csv <==> Lower(Extension(name)) == "csv"
    ensures k == Xlsx <==> Lower(Extension(name)) == "xlsx"
  {
    var ext := Lower(Extension(name));
    if ext == "csv" then Csv
    else if ext == "xlsx" then Xlsx
    else Unsupported
  }

  /** The last '.' is where the contract of `LastDot` puts it. */
  lemma LastDotAt(s: string, m: int)
    requires -1 <= m < |s| && (m >= 0 ==> s[m] == '.')
    requires forall i :: m < i < |s| ==> s[i] != '.'
    ensures LastDot(s) == m
  {
  }

  /** Appending "." and a dot-free suffix makes that suffix the extension and
      keeps everything before it as the base name. */
  lemma SplitAtLastDot(base: string, ext: string)
    requires '.' !in ext
    ensures Extension(base + "." + ext) == ext
    ensures BaseName(base + "." + ext) == base
  {
    var s := base + "." + ext;
    assert forall i :: |base| < i < |s| ==> s[i] == ext[i - |base| - 1];
    LastDotAt(s, |base|);
    assert s[..|base|] == base;
  }

  /** Classification looks only at the text after the last '.'. */
  lemma ClassifyBySuffix(base: string, ext: string)
    requires '.' !in ext
    ensures Classify(base + "." + ext) == Classify(ext)
  {
    SplitAtLastDot(base, ext);
    DotFreeIsExtension(ext);
  }

  /** Classification ignores letter case: names that agree once lowercased
      are classified alike. */
  lemma ClassifyIgnoresCase(a: string, b: string)
    requires Lower(a) == Lower(b)
    ensures Classify(a) == Classify(b)
  {
    assert |a| == |b|;
    assert forall i :: 0 <= i < |a| ==> LowerChar(a[i]) == LowerChar(b[i]) by {
      forall i | 0 <= i < |a| ensures LowerChar(a[i]) == LowerChar(b[i]) {
        assert Lower(a)[i] == Lower(b)[i];
      }
    }
    var d := LastDot(a);
    LastDotAt(b, d);
    var ea, eb := Extension(a), Extension(b);
    assert |ea| == |eb|;
    assert Lower(ea) == Lower(eb) by {
      forall i | 0 <= i < |ea| ensures Lower(ea)[i] == Lower(eb)[i] {
        assert ea[i] == a[d + 1 + i] && eb[i] == b[d + 1 + i];
      }
    }
  }

  /** A name without a '.' is its own extension. */
  lemma DotFreeIsExtension(s: string)
    requires '.' !in s
    ensures LastDot(s) == -1 && Extension(s) == s
  {
    assert forall i :: 0 <= i < |s| ==> s[i] in s;
    LastDotAt(s, -1);
  }

  lemma ClassifyExamples()
    ensures Classify("a.b.CSV") == Csv
    ensures Classify("x.XLSX") == Xlsx
    ensures Classify("notes.txt") == Unsupported
    ensures Classify("data.csv.bak") == Unsupported
  {
    ClassifyUpperCsv();
    ClassifyUpperXlsx();
    ClassifyText();
    ClassifyBackup();
  }

  lemma ClassifyUpperCsv()
    ensures Classify("a.b.CSV") == Csv
  {
    assert "a.b" + "." + "CSV" == "a.b.CSV";
    ClassifyBySuffix("a.b", "CSV");
    DotFreeIsExtension("CSV");
    assert Lower("CSV") == "csv";
  }

  lemma ClassifyUpperXlsx()
    ensures Classify("x.XLSX") == Xlsx
  {
    assert "x" + "." + "XLSX" == "x.XLSX";
    ClassifyBySuffix("x", "XLSX");
    DotFreeIsExtension("XLSX");
    assert Lower("XLSX") == "xlsx";
  }

  lemma ClassifyText()
    ensures Classify("notes.txt") == Unsupported
  {
    assert "notes" + "." + "txt" == "notes.txt";
    ClassifyBySuffix("notes", "txt");
    DotFreeIsExtension("txt");
    assert Lower("txt") == "txt";
  }

  lemma ClassifyBackup()
    ensures Classify("data.csv.bak") == Unsupported
  {
    assert "data.csv" + "." + "bak" == "data.csv.bak";
    ClassifyBySuffix("data.csv", "bak");
    DotFreeIsExtension("bak");
    assert Lower("bak") == "bak";
  }

  /** The radio choice: "CSV" selects CSV, every other choice the workbook. */
  function OutputFormat(choice: string): (k: FileKind)
    ensures k != Unsupported
    ensures k == Csv <==> choice == "CSV"
  {
    if choice == "CSV" then Csv else Xlsx
  }

  const SpreadsheetMime := "application/vnd.openxmlformats-officedocument.spreadsheetml.sheet"

  function Mime(k: FileKind): (m: string)
    requires k != Unsupported
    ensures k == Csv ==> m == "text/csv"
    ensures k == Xlsx ==> m == SpreadsheetMime
  {
    if k == Csv then "text/csv" else SpreadsheetMime
  }

  /** The suffix, without its '.', that the download gets. */
  function Suffix(k: FileKind): (e: string)
    requires k != Unsupported
    ensures e == "csv" || e == "xlsx"
  {
    if k == Csv then "csv" else "xlsx"
  }

  /** Each suffix is dot-free and classifies as the format it was chosen for. */
  lemma SuffixRoundTrip(k: FileKind)
    requires k != Unsupported
    ensures '.' !in Suffix(k) && Classify(Suffix(k)) == k
  {
    var e := Suffix(k);
    SuffixClassifies(e);
    assert Lower(Extension(e)) == e;
    if k == Csv {
      assert e == "csv";
    } else {
      assert e == "xlsx";
    }
  }

  lemma SuffixClassifies(e: string)
    requires forall i :: 0 <= i < |e| ==> 'a' <= e[i] <= 'z'
    ensures '.' !in e && Lower(Extension(e)) == e
  {
    LowercaseSuffix(e);
    DotFreeIsExtension(e);
  }

  lemma LowercaseSuffix(e: string)
    requires forall i :: 0 <= i < |e| ==> 'a' <= e[i] <= 'z'
    ensures '.' !in e && Lower(e) == e
  {
    assert '.' !in e by {
      forall i | 0 <= i < |e| ensures e[i] != '.' { }
    }
  }

  /** The download's name: the uploaded base name plus the new suffix. */
  function OutputName(name: string, k: FileKind): (out: string)
    requires k != Unsupported
    ensures Extension(out) == Suffix(k)
    ensures BaseName(out) == BaseName(name)
    ensures Classify(out) == k
  {
    SuffixRoundTrip(k);
    SplitAtLastDot(BaseName(name), Suffix(k));
    ClassifyBySuffix(BaseName(name), Suffix(k));
    BaseName(name) + "." + Suffix(k)
  }

  /** The choice decides the format, the MIME type and the suffix together:
      "CSV" gives a ".csv" file served as text/csv, anything else an ".xlsx"
      workbook. */
  lemma ChoiceDecidesDownload(name: string, choice: string)
    ensures choice == "CSV" ==>
      Mime(OutputFormat(choice)) == "text/csv" && OutputName(name, OutputFormat(choice)) == BaseName(name) + ".csv"
    ensures choice != "CSV" ==>
      Mime(OutputFormat(choice)) == SpreadsheetMime && OutputName(name, OutputFormat(choice)) == BaseName(name) + ".xlsx"
  {
    if choice == "CSV" {
      NamedAs(name, Csv, ".csv");
    } else {
      NamedAs(name, Xlsx, ".xlsx");
    }
  }

  lemma NamedAs(name: string, k: FileKind, dotted: string)
    requires k != Unsupported && dotted == "." + Suffix(k)
    ensures OutputName(name, k) == BaseName(name) + dotted
  {
    var base, e := BaseName(name), Suffix(k);
    assert OutputName(name, k) == base + "." + e;
    JoinAssociates(base, ".", e);
  }

  lemma JoinAssociates(a: string, b: string, c: string)
    ensures a + b + c == a + (b + c)
  {
  }
}
